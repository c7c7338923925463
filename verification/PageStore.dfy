/**
 * The page cache and the client reads assembled from it: a bounded LRU list of pages, an index of
 * the pages cached per file, and the loop that copies a byte range page by page.  The function that
 * fetches a page from the backing store is a parameter and always answers the same.
 */
module PageStores {
  import opened Common

  type FileId = nat

  datatype Key = Key(file: FileId, page: nat)

  datatype Entry = Entry(key: Key, bytes: seq<byte>)

  datatype Fetched = Failed(status: Status) | Page(bytes: seq<byte>)

  type Fetcher = Key -> Fetched

  /** What the backing store has for a page; without a fetcher every miss is an internal error. */
  function Source(fetcher: Option<Fetcher>, key: Key): Fetched
  {
    match fetcher case None => Failed(Internal) case Some(f) => f(key)
  }

  // ---------- The LRU list ----------

  function Find(order: seq<Entry>, key: Key): (r: Option<nat>)
    ensures r.Some? ==> r.value < |order| && order[r.value].key == key
    ensures r.None? ==> forall i | 0 <= i < |order| :: order[i].key != key
  {
    if order == [] then None
    else if order[0].key == key then Some(0)
    else match Find(order[1..], key)
         case None => assert forall i | 0 < i < |order| :: order[i] == order[1..][i - 1]; None
         case Some(i) => Some(i + 1)
  }

  predicate Distinct(order: seq<Entry>)
  {
    forall i, j | 0 <= i < j < |order| :: order[i].key != order[j].key
  }

  function Cut(order: seq<Entry>, i: nat): (r: seq<Entry>)
    requires i < |order|
    ensures |r| == |order| - 1
  {
    order[..i] + order[i + 1..]
  }

  /** Moves entry `i` to the most recently used end, with a new value. */
  function Refresh(order: seq<Entry>, i: nat, bytes: seq<byte>): (r: seq<Entry>)
    requires i < |order|
    ensures |r| == |order|
  {
    Cut(order, i) + [Entry(order[i].key, bytes)]
  }

  function Insert(order: seq<Entry>, max: nat, e: Entry): (r: seq<Entry>)
    requires max > 0
  {
    match Find(order, e.key)
    case Some(i) => Refresh(order, i, e.bytes)
    case None => (if |order| >= max then order[1..] else order) + [e]
  }

  function Discard(order: seq<Entry>, key: Key): (r: seq<Entry>)
  {
    match Find(order, key) case None => order case Some(i) => Cut(order, i)
  }

  /** Every entry of one list that is not in the other has the given key. */
  lemma CutKeeps(order: seq<Entry>, i: nat)
    requires i < |order| && Distinct(order)
    ensures Distinct(Cut(order, i))
    ensures forall e :: e in Cut(order, i) <==> e in order && e.key != order[i].key
  {
    var r := Cut(order, i);
    assert forall k | 0 <= k < |r| :: r[k] == order[if k < i then k else k + 1];
    forall e | e in order && e.key != order[i].key ensures e in r {
      var k :| 0 <= k < |order| && order[k] == e;
      assert r[if k < i then k else k - 1] == e;
    }
  }

  lemma InsertKeeps(order: seq<Entry>, max: nat, e: Entry)
    requires max > 0 && Distinct(order) && |order| <= max
    ensures var r := Insert(order, max, e);
            && Distinct(r) && |r| <= max && e in r
            && (forall x | x in r :: x == e || (x in order && x.key != e.key))
  {
    var i := Find(order, e.key);
    if i.Some? { CutKeeps(order, i.value); }
  }

  lemma DiscardKeeps(order: seq<Entry>, key: Key)
    requires Distinct(order)
    ensures Distinct(Discard(order, key)) && |Discard(order, key)| <= |order|
    ensures forall e :: e in Discard(order, key) <==> e in order && e.key != key
  {
    var i := Find(order, key);
    if i.Some? { CutKeeps(order, i.value); }
  }

  // ---------- The page store ----------

  datatype Pages = Pages(order: seq<Entry>, index: map<FileId, set<nat>>)

  predicate Indexed(index: map<FileId, set<nat>>, key: Key)
  {
    key.file in index && key.page in index[key.file]
  }

  function Track(index: map<FileId, set<nat>>, key: Key): (r: map<FileId, set<nat>>)
    ensures forall k :: Indexed(r, k) <==> Indexed(index, k) || k == key
  {
    index[key.file := (if key.file in index then index[key.file] else {}) + {key.page}]
  }

  /** The bound holds, every cached page is what the backing store has, and it can be found by its file. */
  ghost predicate Inv(p: Pages, max: nat, fetcher: Option<Fetcher>)
  {
    && |p.order| <= max && Distinct(p.order)
    && forall e | e in p.order :: Source(fetcher, e.key) == Page(e.bytes) && Indexed(p.index, e.key)
  }

  function Load(p: Pages, max: nat, e: Entry): Pages
    requires max > 0
  {
    Pages(Insert(p.order, max, e), Track(p.index, e.key))
  }

  function PageRead(p: Pages, max: nat, fetcher: Option<Fetcher>, key: Key): (r: (Pages, Fetched))
    requires max > 0
  {
    match Find(p.order, key)
    case Some(i) => (p.(order := Refresh(p.order, i, p.order[i].bytes)), Page(p.order[i].bytes))
    case None =>
      match Source(fetcher, key)
      case Failed(status) => (p, Failed(status))
      case Page(bytes) => (Load(p, max, Entry(key, bytes)), Page(bytes))
  }

  lemma LoadKeeps(p: Pages, max: nat, fetcher: Option<Fetcher>, e: Entry)
    requires max > 0 && Inv(p, max, fetcher) && Source(fetcher, e.key) == Page(e.bytes)
    ensures Inv(Load(p, max, e), max, fetcher)
  {
    InsertKeeps(p.order, max, e);
  }

  /** Reading through the cache gives what the backing store has, hit or miss. */
  lemma PageReadKeeps(p: Pages, max: nat, fetcher: Option<Fetcher>, key: Key)
    requires max > 0 && Inv(p, max, fetcher)
    ensures var (q, r) := PageRead(p, max, fetcher, key);
            Inv(q, max, fetcher) && r == Source(fetcher, key)
  {
    match Find(p.order, key)
    case Some(i) =>
      assert p.order[i] in p.order;
      CutKeeps(p.order, i);
    case None =>
      if Source(fetcher, key).Page? { LoadKeeps(p, max, fetcher, Entry(key, Source(fetcher, key).bytes)); }
  }

  function PrefetchOne(p: Pages, max: nat, fetcher: Option<Fetcher>, key: Key): Pages
    requires max > 0
  {
    if Find(p.order, key).Some? || Source(fetcher, key).Failed? then p
    else Load(p, max, Entry(key, Source(fetcher, key).bytes))
  }

  function Prefetch(p: Pages, max: nat, fetcher: Option<Fetcher>, file: FileId, start: nat, count: nat): Pages
    requires max > 0
    decreases count
  {
    if count == 0 then p
    else PrefetchOne(Prefetch(p, max, fetcher, file, start, count - 1), max, fetcher, Key(file, start + count - 1))
  }

  lemma {:induction false} PrefetchKeeps(p: Pages, max: nat, fetcher: Option<Fetcher>, file: FileId, start: nat, count: nat)
    requires max > 0 && Inv(p, max, fetcher)
    ensures Inv(Prefetch(p, max, fetcher, file, start, count), max, fetcher)
    decreases count
  {
    if count > 0 {
      PrefetchKeeps(p, max, fetcher, file, start, count - 1);
      var q, key := Prefetch(p, max, fetcher, file, start, count - 1), Key(file, start + count - 1);
      if Source(fetcher, key).Page? { LoadKeeps(q, max, fetcher, Entry(key, Source(fetcher, key).bytes)); }
    }
  }

  predicate IsCached(order: seq<Entry>, key: Key) { exists e :: e in order && e.key == key }

  /** How many pages of the range would have to be loaded. */
  function Misses(p: Pages, fetcher: Option<Fetcher>, file: FileId, start: nat, count: nat): nat
    decreases count
  {
    if count == 0 then 0 else
    var key := Key(file, start + count - 1);
    Misses(p, fetcher, file, start, count - 1) + if Find(p.order, key).None? && Source(fetcher, key).Page? then 1 else 0
  }

  /** The pages that were added, in the order of their numbers, all from the range. */
  ghost predicate Added(before: seq<Entry>, after: seq<Entry>, file: FileId, start: nat, count: nat)
  {
    && before <= after
    && (forall i | |before| <= i < |after| :: after[i].key.file == file && start <= after[i].key.page < start + count)
    && (forall i, j | |before| <= i < j < |after| :: after[i].key.page < after[j].key.page)
  }

  lemma FindIsCached(order: seq<Entry>, key: Key)
    ensures Find(order, key).Some? <==> IsCached(order, key)
  {
    if Find(order, key).Some? { assert order[Find(order, key).value] in order; }
  }

  ghost predicate CachedInRange(order: seq<Entry>, fetcher: Option<Fetcher>, file: FileId, start: nat, count: nat)
  {
    forall i | start <= i < start + count :: Source(fetcher, Key(file, i)).Page? <==> IsCached(order, Key(file, i))
  }

  /** One more page of the range, with room for it. */
  lemma PrefetchOneMore(before: seq<Entry>, r: Pages, max: nat, fetcher: Option<Fetcher>, file: FileId, start: nat, count: nat)
    requires max > 0 && count > 0 && Inv(r, max, fetcher)
    requires Added(before, r.order, file, start, count - 1) && CachedInRange(r.order, fetcher, file, start, count - 1)
    requires var key := Key(file, start + count - 1);
             Find(before, key).None? && Source(fetcher, key).Page? ==> |r.order| < max
    ensures var key := Key(file, start + count - 1);
            var q := PrefetchOne(r, max, fetcher, key);
            && Added(before, q.order, file, start, count) && CachedInRange(q.order, fetcher, file, start, count)
            && |q.order| == |r.order| + if Find(before, key).None? && Source(fetcher, key).Page? then 1 else 0
  {
    var key := Key(file, start + count - 1);
    var q := PrefetchOne(r, max, fetcher, key);
    FindIsCached(r.order, key);
    FindIsCached(before, key);
    NotAmongAdded(before, r.order, file, start, count - 1, key);
    forall e | e in r.order ensures Source(fetcher, e.key).Page? { }
    forall i | start <= i < start + count ensures Source(fetcher, Key(file, i)).Page? <==> IsCached(q.order, Key(file, i)) {
      CachedAfterLoad(r.order, q.order, key, Key(file, i));
    }
  }

  lemma NotAmongAdded(before: seq<Entry>, after: seq<Entry>, file: FileId, start: nat, count: nat, key: Key)
    requires Added(before, after, file, start, count) && key == Key(file, start + count)
    ensures IsCached(after, key) <==> IsCached(before, key)
  {
    if IsCached(before, key) {
      var e :| e in before && e.key == key;
      assert e in after;
    }
    if IsCached(after, key) {
      var e :| e in after && e.key == key;
      var i :| 0 <= i < |after| && after[i] == e;
      assert i < |before| && before[i] == e;
    }
  }

  lemma CachedAfterLoad(r: seq<Entry>, q: seq<Entry>, key: Key, k: Key)
    requires q == r || (|q| == |r| + 1 && r <= q && q[|r|].key == key)
    ensures q == r ==> (IsCached(q, k) <==> IsCached(r, k))
    ensures q != r ==> (IsCached(q, k) <==> IsCached(r, k) || k == key)
  {
    if q != r {
      assert q == r + [q[|r|]];
      if IsCached(r, k) {
        var e :| e in r && e.key == k;
        assert e in q;
      }
      assert q[|r|] in q;
    }
  }

  /** A prefetch that fits drops nothing and leaves every page of the range cached that the backing store has. */
  lemma {:induction false} PrefetchCaches(p: Pages, max: nat, fetcher: Option<Fetcher>, file: FileId, start: nat, count: nat)
    requires max > 0 && Inv(p, max, fetcher) && |p.order| + Misses(p, fetcher, file, start, count) <= max
    ensures var q := Prefetch(p, max, fetcher, file, start, count);
            && Added(p.order, q.order, file, start, count) && CachedInRange(q.order, fetcher, file, start, count)
            && |q.order| == |p.order| + Misses(p, fetcher, file, start, count)
    decreases count
  {
    hide Inv, PrefetchOne, CachedInRange;
    if count == 0 {
      NothingInRange(p.order, fetcher, file, start);
    } else {
      PrefetchCaches(p, max, fetcher, file, start, count - 1);
      PrefetchKeeps(p, max, fetcher, file, start, count - 1);
      PrefetchOneMore(p.order, Prefetch(p, max, fetcher, file, start, count - 1), max, fetcher, file, start, count);
    }
  }

  lemma NothingInRange(order: seq<Entry>, fetcher: Option<Fetcher>, file: FileId, start: nat)
    ensures CachedInRange(order, fetcher, file, start, 0)
  {
  }

  /** Eviction forgets pages, oldest first, but leaves the index as it is. */
  function Evict(p: Pages, n: nat): Pages
  {
    p.(order := p.order[Min(n, |p.order|)..])
  }

  lemma EvictKeeps(p: Pages, n: nat, max: nat, fetcher: Option<Fetcher>)
    requires Inv(p, max, fetcher)
    ensures Inv(Evict(p, n), max, fetcher)
  {
  }

  /** The list without the pages of one file. */
  function OfOthers(order: seq<Entry>, file: FileId): (r: seq<Entry>)
  {
    if order == [] then []
    else if order[0].key.file == file then OfOthers(order[1..], file)
    else [order[0]] + OfOthers(order[1..], file)
  }

  function Invalidate(p: Pages, file: FileId): Pages
  {
    Pages(OfOthers(p.order, file), p.index - {file})
  }

  lemma {:induction false} OfOthersKeeps(order: seq<Entry>, file: FileId)
    requires Distinct(order)
    ensures Distinct(OfOthers(order, file)) && |OfOthers(order, file)| <= |order|
    ensures forall e :: e in OfOthers(order, file) <==> e in order && e.key.file != file
  {
    if order != [] {
      assert order == [order[0]] + order[1..];
      OfOthersKeeps(order[1..], file);
    }
  }

  /** No page of the file is left, every other page is, and the invariant holds on. */
  lemma InvalidateKeeps(p: Pages, file: FileId, max: nat, fetcher: Option<Fetcher>)
    requires Inv(p, max, fetcher)
    ensures var q := Invalidate(p, file);
            Inv(q, max, fetcher) && forall e :: e in q.order <==> e in p.order && e.key.file != file
  {
    OfOthersKeeps(p.order, file);
  }

  // ---------- What an LRU list keeps ----------

  function Keys(order: seq<Entry>): (r: seq<Key>)
    ensures |r| == |order| && forall i | 0 <= i < |r| :: r[i] == order[i].key
  {
    seq(|order|, i requires 0 <= i < |order| => order[i].key)
  }

  function Less(list: seq<Key>, key: Key): seq<Key>
  {
    if list == [] then [] else if list[0] == key then Less(list[1..], key) else [list[0]] + Less(list[1..], key)
  }

  /** All keys ever used, each once, the latest use last: a list without any bound. */
  function Recent(uses: seq<Key>): seq<Key>
  {
    if uses == [] then [] else Less(Recent(uses[..|uses| - 1]), uses[|uses| - 1]) + [uses[|uses| - 1]]
  }

  /** What one use makes of a bounded list. */
  function Use(list: seq<Key>, max: nat, key: Key): seq<Key>
    requires max > 0
  {
    if key in list then Less(list, key) + [key] else (if |list| >= max then list[1..] else list) + [key]
  }

  predicate Once(list: seq<Key>) { forall i, j | 0 <= i < j < |list| :: list[i] != list[j] }

  lemma {:induction false} LessAbsent(list: seq<Key>, key: Key)
    requires key !in list
    ensures Less(list, key) == list
  {
    if list != [] {
      assert list == [list[0]] + list[1..];
      LessAbsent(list[1..], key);
    }
  }

  lemma {:induction false} LessConcat(a: seq<Key>, b: seq<Key>, key: Key)
    ensures Less(a + b, key) == Less(a, key) + Less(b, key)
    decreases |a|
  {
    if a == [] {
      assert a + b == b;
    } else {
      assert (a + b)[1..] == a[1..] + b;
      LessConcat(a[1..], b, key);
    }
  }

  lemma {:induction false} LessMembers(list: seq<Key>, key: Key)
    ensures forall k :: k in Less(list, key) <==> k in list && k != key
  {
    if list != [] {
      assert list == [list[0]] + list[1..];
      LessMembers(list[1..], key);
    }
  }

  lemma {:induction false} LessOnce(list: seq<Key>, key: Key)
    requires Once(list)
    ensures Once(Less(list, key)) && |Less(list, key)| == if key in list then |list| - 1 else |list|
  {
    if list != [] {
      var first, rest := list[0], list[1..];
      assert list == [first] + rest;
      LessOnce(rest, key);
      LessMembers(rest, key);
      assert first !in rest;
      if first == key {
        LessAbsent(rest, key);
      } else {
        OnceCons(first, Less(rest, key));
      }
    }
  }

  lemma OnceCons(first: Key, rest: seq<Key>)
    requires Once(rest) && first !in rest
    ensures Once([first] + rest)
  {
  }

  lemma {:induction false} RecentOnce(uses: seq<Key>)
    ensures Once(Recent(uses))
    decreases |uses|
  {
    if uses != [] {
      RecentOnce(uses[..|uses| - 1]);
      LessMembers(Recent(uses[..|uses| - 1]), uses[|uses| - 1]);
      LessOnce(Recent(uses[..|uses| - 1]), uses[|uses| - 1]);
    }
  }

  /** The bounded list is the newest part of the unbounded one. */
  predicate Newest(list: seq<Key>, all: seq<Key>, max: nat)
  {
    |list| == Min(max, |all|) && list == all[|all| - |list|..]
  }

  lemma SuffixIsNewest(a: seq<Key>, b: seq<Key>, max: nat)
    requires |b| == Min(max, |a| + |b|)
    ensures Newest(b, a + b, max)
  {
  }

  lemma NewestParts(list: seq<Key>, all: seq<Key>, max: nat)
    requires Newest(list, all, max)
    ensures |list| == Min(max, |all|) && all == all[..|all| - |list|] + list
  {
  }

  lemma UseKeepsNewest(list: seq<Key>, all: seq<Key>, max: nat, key: Key)
    requires max > 0 && Once(all) && Newest(list, all, max)
    ensures Newest(Use(list, max, key), Less(all, key) + [key], max)
  {
    hide Once, Less, Newest;
    NewestParts(list, all, max);
    var older := all[..|all| - |list|];
    LessConcat(older, list, key);
    SplitOnce(older, list);
    if key in list {
      LessAbsent(older, key);
      ListOnce(older, list);
      LessOnce(list, key);
      assert older + Less(list, key) + [key] == older + (Less(list, key) + [key]);
      SuffixIsNewest(older, Less(list, key) + [key], max);
    } else {
      LessAbsent(list, key);
      var front := Less(older, key);
      if |list| >= max {
        assert front + list + [key] == (front + [list[0]]) + (list[1..] + [key]);
        SuffixIsNewest(front + [list[0]], list[1..] + [key], max);
      } else {
        LessAbsent(older, key);
        assert front + list + [key] == front + (list + [key]) && front == [];
        SuffixIsNewest([], list + [key], max);
      }
    }
  }

  lemma ListOnce(a: seq<Key>, b: seq<Key>)
    requires Once(a + b)
    ensures Once(b)
  {
    forall i, j | 0 <= i < j < |b| ensures b[i] != b[j] {
      assert (a + b)[|a| + i] == b[i] && (a + b)[|a| + j] == b[j];
    }
  }

  lemma SplitOnce(a: seq<Key>, b: seq<Key>)
    requires Once(a + b)
    ensures forall k | k in a :: k !in b
  {
    forall k | k in a ensures k !in b {
      var i :| 0 <= i < |a| && a[i] == k;
      forall j | 0 <= j < |b| ensures b[j] != k {
        assert (a + b)[i] == k && (a + b)[|a| + j] == b[j];
      }
    }
  }

  lemma LessAt(list: seq<Key>, i: nat)
    requires i < |list| && Once(list)
    ensures Less(list, list[i]) == list[..i] + list[i + 1..]
  {
    hide Less, Once;
    var key, a, b := list[i], list[..i], list[i + 1..];
    assert list == a + ([key] + b);
    OnceApart(list, i);
    LessConcat(a, [key] + b, key);
    LessAbsent(a, key);
    LessAbsent(b, key);
    LessHead(key, b);
  }

  lemma OnceApart(list: seq<Key>, i: nat)
    requires i < |list| && Once(list)
    ensures list[i] !in list[..i] && list[i] !in list[i + 1..]
  {
  }

  lemma LessHead(key: Key, rest: seq<Key>)
    ensures Less([key] + rest, key) == Less(rest, key)
  {
    assert ([key] + rest)[1..] == rest;
  }

  lemma LessCut(order: seq<Entry>, i: nat)
    requires i < |order| && Distinct(order)
    ensures Less(Keys(order), order[i].key) == Keys(Cut(order, i))
  {
    hide Less;
    LessAt(Keys(order), i);
  }

  /** A page that could be read is the most recently used one, and nothing but the least recently used one may have gone. */
  lemma PageReadIsUse(p: Pages, max: nat, fetcher: Option<Fetcher>, key: Key)
    requires max > 0 && Inv(p, max, fetcher) && Source(fetcher, key).Page?
    ensures Keys(PageRead(p, max, fetcher, key).0.order) == Use(Keys(p.order), max, key)
  {
    match Find(p.order, key)
    case Some(i) =>
      assert Keys(p.order)[i] == key;
      LessCut(p.order, i);
      assert Keys(Refresh(p.order, i, p.order[i].bytes)) == Keys(Cut(p.order, i)) + [key];
    case None =>
      var e := Entry(key, Source(fetcher, key).bytes);
      assert Keys(Insert(p.order, max, e)) == (if |p.order| >= max then Keys(p.order)[1..] else Keys(p.order)) + [key];
  }

  /** The pages read so far that the backing store could serve. */
  function Served(fetcher: Option<Fetcher>, keys: seq<Key>): seq<Key>
  {
    if keys == [] then []
    else Served(fetcher, keys[..|keys| - 1]) + if Source(fetcher, keys[|keys| - 1]).Page? then [keys[|keys| - 1]] else []
  }

  function ReadAll(p: Pages, max: nat, fetcher: Option<Fetcher>, keys: seq<Key>): Pages
    requires max > 0
  {
    if keys == [] then p else PageRead(ReadAll(p, max, fetcher, keys[..|keys| - 1]), max, fetcher, keys[|keys| - 1]).0
  }

  /** Whatever is read in whatever order, the cache holds exactly the most recently read pages, as many as it may. */
  lemma {:induction false} CacheHoldsMostRecent(max: nat, fetcher: Option<Fetcher>, keys: seq<Key>)
    requires max > 0
    ensures var p := ReadAll(Pages([], map[]), max, fetcher, keys);
            Inv(p, max, fetcher) && Newest(Keys(p.order), Recent(Served(fetcher, keys)), max)
    decreases |keys|
  {
    hide Inv, PageRead, Use, Newest, Less;
    if keys == [] {
      EmptyHolds(max, fetcher);
    } else {
      var before, last := keys[..|keys| - 1], keys[|keys| - 1];
      CacheHoldsMostRecent(max, fetcher, before);
      var p, served := ReadAll(Pages([], map[]), max, fetcher, before), Served(fetcher, before);
      PageReadKeeps(p, max, fetcher, last);
      if Source(fetcher, last).Page? {
        PageReadIsUse(p, max, fetcher, last);
        RecentOnce(served);
        UseKeepsNewest(Keys(p.order), Recent(served), max, last);
        assert (served + [last])[..|served|] == served;
      } else {
        MissKeepsPages(p, max, fetcher, last);
        assert served + [] == served;
      }
    }
  }

  /** Evicting `n` pages then leaves exactly the most recently read ones, `n` fewer, or none. */
  lemma EvictForgetsOldest(max: nat, fetcher: Option<Fetcher>, keys: seq<Key>, n: nat)
    requires max > 0
    ensures var p := ReadAll(Pages([], map[]), max, fetcher, keys);
            var left := if n >= |p.order| then 0 else |p.order| - n;
            Newest(Keys(Evict(p, n).order), Recent(Served(fetcher, keys)), left)
  {
    hide ReadAll, Recent, Served, Inv;
    CacheHoldsMostRecent(max, fetcher, keys);
    var p := ReadAll(Pages([], map[]), max, fetcher, keys);
    var k := Min(n, |p.order|);
    assert Keys(p.order[k..]) == Keys(p.order)[k..];
  }

  lemma EmptyHolds(max: nat, fetcher: Option<Fetcher>)
    ensures Inv(Pages([], map[]), max, fetcher) && Newest(Keys([]), [], max)
  {
  }

  lemma MissKeepsPages(p: Pages, max: nat, fetcher: Option<Fetcher>, key: Key)
    requires max > 0 && Inv(p, max, fetcher) && Source(fetcher, key).Failed?
    ensures PageRead(p, max, fetcher, key).0 == p
  {
    forall i | 0 <= i < |p.order| ensures p.order[i].key != key { assert p.order[i] in p.order; }
  }

  // ---------- Reading a byte range ----------

  function PageNo(at: nat, pageSize: nat): nat
    requires pageSize > 0
  {
    at / pageSize
  }

  function PageOff(at: nat, pageSize: nat): (o: nat)
    requires pageSize > 0
    ensures o < pageSize && o <= at
  {
    at % pageSize
  }

  /** Reading without any cache: every page straight from the backing store. */
  function Direct(fetcher: Option<Fetcher>, pageSize: nat, file: FileId, offset: nat, size: nat, got: seq<byte>): (r: (Status, seq<byte>))
    requires pageSize > 0
    decreases size - |got|
  {
    if |got| >= size then (Ok, got) else
    var at := offset + |got|;
    match Source(fetcher, Key(file, PageNo(at, pageSize)))
    case Failed(status) => if |got| > 0 then (Ok, got) else (status, [])
    case Page(bytes) =>
      if |bytes| <= PageOff(at, pageSize) then (Ok, got) else
      var more := got + Piece(bytes, PageOff(at, pageSize), size - |got|);
      if |bytes| < pageSize then (Ok, more) else Direct(fetcher, pageSize, file, offset, size, more)
  }

  function Piece(bytes: seq<byte>, from: nat, wanted: nat): (r: seq<byte>)
    requires from < |bytes|
    ensures |r| == Min(wanted, |bytes| - from)
  {
    bytes[from..from + Min(wanted, |bytes| - from)]
  }

  /** The same, each page through the cache. */
  function Cached(p: Pages, max: nat, fetcher: Option<Fetcher>, pageSize: nat, file: FileId, offset: nat, size: nat, got: seq<byte>):
    (r: (Pages, Status, seq<byte>))
    requires pageSize > 0 && max > 0
    decreases size - |got|
  {
    if |got| >= size then (p, Ok, got) else
    var at := offset + |got|;
    var (q, page) := PageRead(p, max, fetcher, Key(file, PageNo(at, pageSize)));
    match page
    case Failed(status) => if |got| > 0 then (q, Ok, got) else (q, status, [])
    case Page(bytes) =>
      if |bytes| <= PageOff(at, pageSize) then (q, Ok, got) else
      var more := got + Piece(bytes, PageOff(at, pageSize), size - |got|);
      if |bytes| < pageSize then (q, Ok, more) else Cached(q, max, fetcher, pageSize, file, offset, size, more)
  }

  /** The cache cannot be seen: whatever it holds, a read answers as if there were none. */
  lemma {:induction false} CacheIsTransparent(p: Pages, max: nat, fetcher: Option<Fetcher>, pageSize: nat, file: FileId, offset: nat, size: nat, got: seq<byte>)
    requires pageSize > 0 && max > 0 && Inv(p, max, fetcher)
    ensures var (q, status, data) := Cached(p, max, fetcher, pageSize, file, offset, size, got);
            Inv(q, max, fetcher) && (status, data) == Direct(fetcher, pageSize, file, offset, size, got)
    decreases size - |got|
  {
    hide Inv, PageRead;
    if |got| < size {
      var at := offset + |got|;
      var key := Key(file, PageNo(at, pageSize));
      PageReadKeeps(p, max, fetcher, key);
      var (q, page) := PageRead(p, max, fetcher, key);
      if page.Page? && |page.bytes| > PageOff(at, pageSize) && |page.bytes| >= pageSize {
        CacheIsTransparent(q, max, fetcher, pageSize, file, offset, size, got + Piece(page.bytes, PageOff(at, pageSize), size - |got|));
      }
    }
  }

  // ---------- A file fetched page by page ----------

  function PageOf(data: seq<byte>, pageSize: nat, i: nat): seq<byte>
    requires pageSize > 0
  {
    var from := Min(i * pageSize, |data|);
    data[from..Min(from + pageSize, |data|)]
  }

  ghost predicate Pagewise(fetcher: Option<Fetcher>, pageSize: nat, file: FileId, data: seq<byte>)
    requires pageSize > 0
  {
    forall i {:trigger Key(file, i)} :: Source(fetcher, Key(file, i)) == Page(PageOf(data, pageSize, i))
  }

  lemma PageStart(at: nat, pageSize: nat)
    requires pageSize > 0
    ensures PageNo(at, pageSize) * pageSize == at - PageOff(at, pageSize)
  {
  }

  /** The page of a position: a full page from its start on, as far as the file goes. */
  lemma PageAt(data: seq<byte>, pageSize: nat, at: nat)
    requires pageSize > 0
    ensures var b, o := PageOf(data, pageSize, PageNo(at, pageSize)), PageOff(at, pageSize);
            && (at < |data| ==> b == data[at - o..Min(at - o + pageSize, |data|)])
            && |b| <= pageSize && (|b| <= o <==> at >= |data|)
  {
    PageStart(at, pageSize);
  }

  lemma PieceOfPage(data: seq<byte>, pageSize: nat, at: nat, o: nat, wanted: nat)
    requires at < |data| && o <= at && o < pageSize
    ensures var b := data[at - o..Min(at - o + pageSize, |data|)];
            |b| - o == Min(pageSize - o, |data| - at) > 0 && Piece(b, o, wanted) == data[at..at + Min(wanted, |b| - o)]
  {
  }

  lemma Adjoin(data: seq<byte>, from: nat, mid: nat, to: nat)
    requires from <= mid <= to <= |data|
    ensures data[from..mid] + data[mid..to] == data[from..to]
  {
  }

  lemma {:induction false} DirectFrom(fetcher: Option<Fetcher>, pageSize: nat, file: FileId, offset: nat, size: nat, got: seq<byte>, data: seq<byte>)
    requires pageSize > 0 && Pagewise(fetcher, pageSize, file, data)
    requires |got| <= size && offset + |got| <= |data| && got == data[offset..offset + |got|]
    ensures Direct(fetcher, pageSize, file, offset, size, got) == (Ok, data[offset..Min(offset + size, |data|)])
    decreases size - |got|
  {
    hide PageOf, Piece, PageNo, PageOff;
    if |got| < size {
      var at := offset + |got|;
      var no, off := PageNo(at, pageSize), PageOff(at, pageSize);
      assert Source(fetcher, Key(file, no)) == Page(PageOf(data, pageSize, no));
      PageAt(data, pageSize, at);
      if at < |data| {
        var bytes := PageOf(data, pageSize, no);
        PieceOfPage(data, pageSize, at, off, size - |got|);
        Adjoin(data, offset, at, at + Min(size - |got|, |bytes| - off));
        if |bytes| == pageSize {
          DirectFrom(fetcher, pageSize, file, offset, size, got + Piece(bytes, off, size - |got|), data);
        }
      }
    }
  }

  /** A read returns exactly the bytes of the range that the file has. */
  lemma DirectIsSlice(fetcher: Option<Fetcher>, pageSize: nat, file: FileId, offset: nat, size: nat, data: seq<byte>)
    requires pageSize > 0 && Pagewise(fetcher, pageSize, file, data)
    ensures Direct(fetcher, pageSize, file, offset, size, []) ==
            (Ok, if offset >= |data| then [] else data[offset..Min(offset + size, |data|)])
  {
    hide PageOf, PageNo, PageOff;
    if offset <= |data| {
      DirectFrom(fetcher, pageSize, file, offset, size, [], data);
    } else {
      var no := PageNo(offset, pageSize);
      assert Source(fetcher, Key(file, no)) == Page(PageOf(data, pageSize, no));
      PageAt(data, pageSize, offset);
    }
  }

  // ---------- A page that cannot be fetched ----------

  /** Full pages of the file up to the bad one. */
  ghost predicate PagewiseUpTo(fetcher: Option<Fetcher>, pageSize: nat, file: FileId, data: seq<byte>, bad: nat)
    requires pageSize > 0
  {
    && bad * pageSize <= |data|
    && forall i {:trigger Key(file, i)} | 0 <= i < bad :: Source(fetcher, Key(file, i)) == Page(PageOf(data, pageSize, i))
  }

  lemma PageBefore(at: nat, pageSize: nat, bad: nat)
    requires pageSize > 0
    ensures at < bad * pageSize <==> PageNo(at, pageSize) < bad
    ensures at < bad * pageSize ==> at - PageOff(at, pageSize) + pageSize <= bad * pageSize
    ensures at == bad * pageSize ==> PageNo(at, pageSize) == bad && PageOff(at, pageSize) == 0
  {
    var no, off := PageNo(at, pageSize), PageOff(at, pageSize);
    PageStart(at, pageSize);
    if no < bad { Multiple(no, bad, pageSize); } else { Multiple(bad, no + 1, pageSize); }
    if at == bad * pageSize { Multiple(no, bad, pageSize); }
  }

  lemma Multiple(i: nat, n: nat, d: nat)
    ensures i < n ==> i * d + d <= n * d
    ensures (i + 1) * d == i * d + d
  {
  }

  lemma {:induction false} DirectBeforeBad(fetcher: Option<Fetcher>, pageSize: nat, file: FileId, offset: nat, size: nat, got: seq<byte>, data: seq<byte>, bad: nat, status: Status)
    requires pageSize > 0 && PagewiseUpTo(fetcher, pageSize, file, data, bad) && Source(fetcher, Key(file, bad)) == Failed(status)
    requires |got| <= size && offset < bad * pageSize && offset + |got| <= bad * pageSize && got == data[offset..offset + |got|]
    ensures Direct(fetcher, pageSize, file, offset, size, got) == (Ok, data[offset..Min(offset + size, bad * pageSize)])
    decreases size - |got|
  {
    hide PageOf, Piece, PageNo, PageOff;
    var end := bad * pageSize;
    if |got| < size {
      var at := offset + |got|;
      var no, off := PageNo(at, pageSize), PageOff(at, pageSize);
      PageBefore(at, pageSize, bad);
      if at < end {
        assert Source(fetcher, Key(file, no)) == Page(PageOf(data, pageSize, no));
        PageAt(data, pageSize, at);
        var bytes := PageOf(data, pageSize, no);
        PieceOfPage(data, pageSize, at, off, size - |got|);
        Adjoin(data, offset, at, at + Min(size - |got|, |bytes| - off));
        DirectBeforeBad(fetcher, pageSize, file, offset, size, got + Piece(bytes, off, size - |got|), data, bad, status);
      }
    }
  }

  lemma InBadPage(at: nat, pageSize: nat, bad: nat)
    requires pageSize > 0 && bad * pageSize <= at < bad * pageSize + pageSize
    ensures PageNo(at, pageSize) == bad
  {
    hide PageNo, PageOff;
    PageBefore(at, pageSize, bad);
    PageBefore(at, pageSize, bad + 1);
    Multiple(bad, bad, pageSize);
  }

  /**
   * A read that meets a page that cannot be fetched returns what comes before that page, which
   * starts at `end`, and fails only if nothing does.
   */
  lemma DirectStopsAtFailure(fetcher: Option<Fetcher>, pageSize: nat, file: FileId, offset: nat, size: nat, data: seq<byte>, bad: nat, end: nat, status: Status)
    requires pageSize > 0 && PagewiseUpTo(fetcher, pageSize, file, data, bad) && Source(fetcher, Key(file, bad)) == Failed(status)
    requires end == bad * pageSize && offset < end + pageSize
    ensures end <= |data|
    ensures Direct(fetcher, pageSize, file, offset, size, []) ==
            if offset >= end && size > 0 then (status, []) else (Ok, data[Min(offset, end)..Min(offset + size, end)])
  {
    hide PageOf, Piece, PagewiseUpTo, PageNo, PageOff;
    BadIsWithin(fetcher, pageSize, file, data, bad);
    if offset < end {
      DirectBeforeBad(fetcher, pageSize, file, offset, size, [], data, bad, status);
    } else if size > 0 {
      InBadPage(offset, pageSize, bad);
    } else {
      assert data[end..end] == [];
    }
  }

  /** Without a fetcher every read of something is an internal error. */
  lemma WithoutFetcher(pageSize: nat, file: FileId, offset: nat, size: nat)
    requires pageSize > 0
    ensures Direct(None, pageSize, file, offset, size, []) == if size > 0 then (Internal, []) else (Ok, [])
  {
  }

  lemma BadIsWithin(fetcher: Option<Fetcher>, pageSize: nat, file: FileId, data: seq<byte>, bad: nat)
    requires pageSize > 0 && PagewiseUpTo(fetcher, pageSize, file, data, bad)
    ensures bad * pageSize <= |data|
  {
  }

  // ---------- Whole runs ----------

  datatype Op =
    | Reading(file: FileId, offset: nat, size: nat)
    | Prefetching(file: FileId, start: nat, count: nat)
    | Evicting(n: nat)
    | Invalidating(file: FileId)

  datatype Setup = Setup(max: nat, pageSize: nat, fetcher: Option<Fetcher>)

  function Step(p: Pages, s: Setup, op: Op): Pages
    requires s.max > 0 && s.pageSize > 0
  {
    match op
    case Reading(file, offset, size) => Cached(p, s.max, s.fetcher, s.pageSize, file, offset, size, []).0
    case Prefetching(file, start, count) => Prefetch(p, s.max, s.fetcher, file, start, count)
    case Evicting(n) => Evict(p, n)
    case Invalidating(file) => Invalidate(p, file)
  }

  /** The answers a run of operations gives, one per read. */
  function Answers(p: Pages, s: Setup, ops: seq<Op>): seq<(Status, seq<byte>)>
    requires s.max > 0 && s.pageSize > 0
    decreases |ops|
  {
    if ops == [] then [] else
    var rest := Answers(Step(p, s, ops[0]), s, ops[1..]);
    match ops[0]
    case Reading(file, offset, size) =>
      var (_, status, data) := Cached(p, s.max, s.fetcher, s.pageSize, file, offset, size, []);
      [(status, data)] + rest
    case _ => rest
  }

  function DirectAnswers(s: Setup, ops: seq<Op>): seq<(Status, seq<byte>)>
    requires s.pageSize > 0
    decreases |ops|
  {
    if ops == [] then [] else
    match ops[0]
    case Reading(file, offset, size) => [Direct(s.fetcher, s.pageSize, file, offset, size, [])] + DirectAnswers(s, ops[1..])
    case _ => DirectAnswers(s, ops[1..])
  }

  ghost function Final(p: Pages, s: Setup, ops: seq<Op>): Pages
    requires s.max > 0 && s.pageSize > 0
    decreases |ops|
  {
    if ops == [] then p else Final(Step(p, s, ops[0]), s, ops[1..])
  }

  lemma StepKeeps(p: Pages, s: Setup, op: Op)
    requires s.max > 0 && s.pageSize > 0 && Inv(p, s.max, s.fetcher)
    ensures Inv(Step(p, s, op), s.max, s.fetcher)
  {
    hide Inv;
    match op
    case Reading(file, offset, size) => CacheIsTransparent(p, s.max, s.fetcher, s.pageSize, file, offset, size, []);
    case Prefetching(file, start, count) => PrefetchKeeps(p, s.max, s.fetcher, file, start, count);
    case Evicting(n) => EvictKeeps(p, n, s.max, s.fetcher);
    case Invalidating(file) => InvalidateKeeps(p, file, s.max, s.fetcher);
  }

  /** Over any mix of reads, prefetches, evictions and invalidations, every read answers as if there were no cache. */
  lemma {:induction false} RunsAreTransparent(p: Pages, s: Setup, ops: seq<Op>)
    requires s.max > 0 && s.pageSize > 0 && Inv(p, s.max, s.fetcher)
    ensures Answers(p, s, ops) == DirectAnswers(s, ops)
    ensures Inv(Final(p, s, ops), s.max, s.fetcher) && |Final(p, s, ops).order| <= s.max
    decreases |ops|
  {
    hide Step, Cached, Direct;
    if ops != [] {
      var op := ops[0];
      StepKeeps(p, s, op);
      if op.Reading? { CacheIsTransparent(p, s.max, s.fetcher, s.pageSize, op.file, op.offset, op.size, []); }
      RunsAreTransparent(Step(p, s, op), s, ops[1..]);
    }
  }

  // ---------- The objects ----------

  function KeysOf(order: seq<Entry>): set<Key>
  {
    set e | e in order :: e.key
  }

  lemma {:induction false} KeyCount(order: seq<Entry>)
    requires Distinct(order)
    ensures |KeysOf(order)| == |order|
    decreases |order|
  {
    if order != [] {
      var rest := order[..|order| - 1];
      KeyCount(rest);
      assert order == rest + [order[|order| - 1]];
      assert KeysOf(order) == KeysOf(rest) + {order[|order| - 1].key};
    }
  }

  /** The list without the entries of some keys. */
  function Dropped(order: seq<Entry>, keys: set<Key>): seq<Entry>
  {
    if order == [] then []
    else if order[0].key in keys then Dropped(order[1..], keys)
    else [order[0]] + Dropped(order[1..], keys)
  }

  lemma {:induction false} DropNothing(order: seq<Entry>, keys: set<Key>)
    requires forall e | e in order :: e.key !in keys
    ensures Dropped(order, keys) == order
  {
    if order != [] {
      assert order == [order[0]] + order[1..];
      DropNothing(order[1..], keys);
    }
  }

  lemma {:induction false} DroppedMembers(order: seq<Entry>, keys: set<Key>, e: Entry)
    ensures e in Dropped(order, keys) <==> e in order && e.key !in keys
  {
    if order != [] {
      assert order == [order[0]] + order[1..];
      DroppedMembers(order[1..], keys, e);
    }
  }

  lemma {:induction false} DropOneMore(order: seq<Entry>, keys: set<Key>, key: Key)
    requires Distinct(order)
    ensures Discard(Dropped(order, keys), key) == Dropped(order, keys + {key})
  {
    if order != [] {
      var e, rest := order[0], order[1..];
      DropOneMore(rest, keys, key);
      if e.key !in keys {
        var list := [e] + Dropped(rest, keys);
        assert list[1..] == Dropped(rest, keys);
        if e.key == key {
          assert Find(list, key) == Some(0) && Discard(list, key) == Dropped(rest, keys);
          forall x | x in Dropped(rest, keys) ensures x.key !in {key} { DroppedMembers(rest, keys, x); }
          DiscardAbsent(Dropped(rest, keys), key);
        } else {
          DiscardBehind(e, Dropped(rest, keys), key);
        }
      }
    }
  }

  lemma DiscardAbsent(order: seq<Entry>, key: Key)
    requires forall e | e in order :: e.key != key
    ensures Discard(order, key) == order
  {
    assert forall i | 0 <= i < |order| :: order[i] in order;
  }

  lemma DiscardBehind(e: Entry, order: seq<Entry>, key: Key)
    requires e.key != key
    ensures Discard([e] + order, key) == [e] + Discard(order, key)
  {
    assert ([e] + order)[1..] == order;
    var i := Find(order, key);
    if i.Some? { assert Cut([e] + order, i.value + 1) == [e] + Cut(order, i.value); }
  }

  /** Dropping every indexed page of a file drops the file. */
  lemma {:induction false} DropFile(order: seq<Entry>, file: FileId, keys: set<Key>)
    requires forall key | key in keys :: key.file == file
    requires forall e | e in order && e.key.file == file :: e.key in keys
    ensures Dropped(order, keys) == OfOthers(order, file)
  {
    if order != [] {
      assert order == [order[0]] + order[1..];
      DropFile(order[1..], file, keys);
    }
  }

  /** The table holds exactly the listed entries. */
  ghost predicate Tabled(order: seq<Entry>, table: map<Key, seq<byte>>)
  {
    Distinct(order) && table.Keys == KeysOf(order) && forall e | e in order :: table[e.key] == e.bytes
  }

  lemma TabledLookup(order: seq<Entry>, table: map<Key, seq<byte>>, key: Key)
    requires Tabled(order, table)
    ensures key in table <==> Find(order, key).Some?
    ensures key in table ==> table[key] == order[Find(order, key).value].bytes
    ensures |table| == |order|
  {
    var i := Find(order, key);
    if i.Some? { assert order[i.value] in order; }
    KeyCount(order);
    assert |table| == |table.Keys|;
  }

  lemma TabledPop(order: seq<Entry>, table: map<Key, seq<byte>>)
    requires Tabled(order, table) && order != []
    ensures Tabled(order[1..], table - {order[0].key})
  {
    assert order == [order[0]] + order[1..];
  }

  lemma TabledPush(order: seq<Entry>, table: map<Key, seq<byte>>, e: Entry)
    requires Tabled(order, table) && Find(order, e.key).None?
    ensures Tabled(order + [e], table[e.key := e.bytes])
  {
  }

  lemma TabledCut(order: seq<Entry>, table: map<Key, seq<byte>>, i: nat)
    requires Tabled(order, table) && i < |order|
    ensures Tabled(Cut(order, i), table - {order[i].key}) && Find(Cut(order, i), order[i].key).None?
  {
    CutKeeps(order, i);
    assert order[i] in order;
  }

  lemma TabledRefresh(order: seq<Entry>, table: map<Key, seq<byte>>, i: nat, bytes: seq<byte>)
    requires Tabled(order, table) && i < |order|
    ensures Tabled(Refresh(order, i, bytes), table[order[i].key := bytes])
  {
    hide Tabled;
    TabledCut(order, table, i);
    var e := Entry(order[i].key, bytes);
    TabledPush(Cut(order, i), table - {e.key}, e);
    assert (table - {e.key})[e.key := bytes] == table[e.key := bytes];
  }

  function PageKeys(file: FileId, pages: set<nat>): set<Key>
  {
    set page | page in pages :: Key(file, page)
  }

  lemma PageKeysGrow(file: FileId, pages: set<nat>, page: nat)
    ensures PageKeys(file, pages + {page}) == PageKeys(file, pages) + {Key(file, page)}
  {
  }

  class LruCache {
    const max: nat
    var order: seq<Entry>
    var table: map<Key, seq<byte>>

    constructor (max: nat)
      ensures Valid() && this.max == max && order == []
    {
      this.max := max;
      order, table := [], map[];
    }

    ghost predicate Valid()
      reads this
    {
      Tabled(order, table)
    }

    method Get(key: Key) returns (bytes: Option<seq<byte>>)
      requires Valid()
      modifies this`order
      ensures Valid()
      ensures match Find(old(order), key)
              case None => bytes == None && order == old(order)
              case Some(i) => bytes == Some(old(order)[i].bytes) && order == Refresh(old(order), i, old(order)[i].bytes)
    {
      hide Tabled;
      TabledLookup(order, table, key);
      if key !in table { return None; }
      var i := Find(order, key).value;
      TabledRefresh(order, table, i, order[i].bytes);
      assert table[key := order[i].bytes] == table;
      order := Refresh(order, i, order[i].bytes);
      return Some(table[key]);
    }

    method Put(e: Entry)
      requires Valid() && max > 0 && |order| <= max
      modifies this
      ensures Valid() && order == Insert(old(order), max, e) && |order| <= max
    {
      hide Tabled;
      TabledLookup(order, table, e.key);
      if e.key in table {
        var i := Find(order, e.key).value;
        TabledRefresh(order, table, i, e.bytes);
        order := Refresh(order, i, e.bytes);
        table := table[e.key := e.bytes];
        return;
      }
      if |table| >= max {
        TabledPop(order, table);
        table := table - {order[0].key};
        order := order[1..];
      }
      TabledPush(order, table, e);
      order := order + [e];
      table := table[e.key := e.bytes];
    }

    method Contains(key: Key) returns (found: bool)
      requires Valid()
      ensures found == Find(order, key).Some?
    {
      TabledLookup(order, table, key);
      return key in table;
    }

    method Erase(key: Key)
      requires Valid()
      modifies this
      ensures Valid() && order == Discard(old(order), key)
    {
      hide Tabled;
      TabledLookup(order, table, key);
      if key in table {
        TabledCut(order, table, Find(order, key).value);
        order := Cut(order, Find(order, key).value);
        table := table - {key};
      }
    }

    /** Oldest entries first, until enough are gone or none is left. */
    method EvictN(count: nat) returns (evicted: seq<Key>)
      requires Valid()
      modifies this
      ensures Valid() && order == old(order)[Min(count, |old(order)|)..]
      ensures evicted == seq(Min(count, |old(order)|), i requires 0 <= i < |old(order)| => old(order)[i].key)
    {
      hide Tabled;
      evicted := [];
      while |evicted| < count && order != []
        invariant Valid() && |evicted| <= Min(count, |old(order)|) && order == old(order)[|evicted|..]
        invariant forall i | 0 <= i < |evicted| :: evicted[i] == old(order)[i].key
      {
        TabledPop(order, table);
        evicted := evicted + [order[0].key];
        table := table - {order[0].key};
        order := order[1..];
      }
    }
  }

  class PageStore {
    const pageSize: nat
    const cache: LruCache
    var index: map<FileId, set<nat>>
    var fetcher: Option<Fetcher>

    constructor (pageSize: nat, max: nat)
      requires max > 0
      ensures Valid() && this.pageSize == pageSize && cache.max == max && fetcher == None && View() == Pages([], map[])
      ensures fresh(cache)
    {
      this.pageSize := pageSize;
      cache := new LruCache(max);
      index, fetcher := map[], None;
    }

    ghost function View(): Pages
      reads this, cache
    {
      Pages(cache.order, index)
    }

    ghost predicate Valid()
      reads this, cache
    {
      cache.Valid() && cache.max > 0 && Inv(View(), cache.max, fetcher)
    }

    /** A new fetcher finds a valid store only if nothing cached contradicts it. */
    method SetPageFetcher(f: Fetcher)
      modifies this`fetcher
      ensures fetcher == Some(f)
    {
      fetcher := Some(f);
    }

    method TrackPage(key: Key)
      modifies this`index
      ensures index == Track(old(index), key)
    {
      index := index[key.file := (if key.file in index then index[key.file] else {}) + {key.page}];
    }

    method LoadPage(e: Entry)
      requires Valid() && Source(fetcher, e.key) == Page(e.bytes)
      modifies this`index, cache
      ensures Valid() && View() == Load(old(View()), cache.max, e)
    {
      LoadKeeps(View(), cache.max, fetcher, e);
      cache.Put(e);
      TrackPage(e.key);
    }

    method ReadPage(key: Key) returns (r: Fetched)
      requires Valid()
      modifies this`index, cache
      ensures Valid() && (View(), r) == PageRead(old(View()), cache.max, fetcher, key) && r == Source(fetcher, key)
    {
      hide Inv;
      PageReadKeeps(View(), cache.max, fetcher, key);
      var hit := cache.Get(key);
      if hit.Some? { return Page(hit.value); }
      r := Source(fetcher, key);
      if r.Page? { LoadPage(Entry(key, r.bytes)); }
    }

    method PrefetchPages(file: FileId, start: nat, count: nat)
      requires Valid()
      modifies this`index, cache
      ensures Valid() && View() == Prefetch(old(View()), cache.max, fetcher, file, start, count)
    {
      hide Inv, Load, Tabled;
      for i := 0 to count
        invariant Valid() && View() == Prefetch(old(View()), cache.max, fetcher, file, start, i)
      {
        var key := Key(file, start + i);
        var found := cache.Contains(key);
        if !found {
          var r := Source(fetcher, key);
          if r.Page? { LoadPage(Entry(key, r.bytes)); }
        }
      }
    }

    method EvictPages(n: nat)
      requires Valid()
      modifies cache
      ensures Valid() && View() == Evict(old(View()), n)
    {
      EvictKeeps(View(), n, cache.max, fetcher);
      var _ := cache.EvictN(n);
    }

    /** Erases every page the index lists for the file. */
    method InvalidateFile(file: FileId)
      requires Valid()
      modifies this`index, cache
      ensures Valid() && View() == Invalidate(old(View()), file)
    {
      InvalidateKeeps(View(), file, cache.max, fetcher);
      ghost var was := cache.order;
      if file !in index {
        DropFile(was, file, {});
        DropNothing(was, {});
        assert index - {file} == index;
        return;
      }
      var pages := index[file];
      ghost var all := PageKeys(file, pages);
      DropFile(was, file, all);
      index := index - {file};
      ErasePages(file, pages);
    }

    method ErasePages(file: FileId, pages: set<nat>)
      requires cache.Valid()
      modifies cache
      ensures cache.Valid() && cache.order == Dropped(old(cache.order), PageKeys(file, pages))
    {
      var todo := pages;
      ghost var gone: set<Key> := {};
      DropNothing(cache.order, gone);
      while todo != {}
        invariant todo <= pages && gone == PageKeys(file, pages - todo)
        invariant cache.Valid() && cache.order == Dropped(old(cache.order), gone)
        decreases |todo|
      {
        var page :| page in todo;
        DropOneMore(old(cache.order), gone, Key(file, page));
        cache.Erase(Key(file, page));
        assert pages - (todo - {page}) == pages - todo + {page};
        PageKeysGrow(file, pages - todo, page);
        todo := todo - {page};
        gone := gone + {Key(file, page)};
      }
      assert pages - todo == pages;
    }
  }

  class CacheClient {
    const store: PageStore

    constructor (pageSize: nat, max: nat)
      requires max > 0
      ensures store.Valid() && store.pageSize == pageSize && store.cache.max == max && store.View() == Pages([], map[])
    {
      store := new PageStore(pageSize, max);
    }

    /** Copies the range page by page; what is read does not depend on what is cached. */
    method ReadCached(file: FileId, offset: nat, size: nat) returns (status: Status, data: seq<byte>)
      requires store.Valid() && store.pageSize > 0
      modifies store`index, store.cache
      ensures store.Valid()
      ensures (status, data) == Direct(store.fetcher, store.pageSize, file, offset, size, [])
      ensures store.View() == Cached(old(store.View()), store.cache.max, store.fetcher, store.pageSize, file, offset, size, []).0
    {
      hide Inv, PageRead, PageNo, PageOff, Piece;
      data := [];
      while |data| < size
        invariant store.Valid()
        invariant Direct(store.fetcher, store.pageSize, file, offset, size, []) ==
                  Direct(store.fetcher, store.pageSize, file, offset, size, data)
        invariant Cached(old(store.View()), store.cache.max, store.fetcher, store.pageSize, file, offset, size, []) ==
                  Cached(store.View(), store.cache.max, store.fetcher, store.pageSize, file, offset, size, data)
      {
        var at := offset + |data|;
        var page := store.ReadPage(Key(file, PageNo(at, store.pageSize)));
        if page.Failed? {
          if |data| > 0 { break; }
          return page.status, [];
        }
        var from := PageOff(at, store.pageSize);
        if |page.bytes| <= from { break; }
        data := data + Piece(page.bytes, from, size - |data|);
        if |page.bytes| < store.pageSize { break; }
      }
      return Ok, data;
    }
  }
}
