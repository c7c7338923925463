/**
 * The two eviction policies, specified by the history of events they have seen: what is tracked,
 * how often each block was touched since it was inserted, and when it was touched last.
 */
module CachePolicy {

  type BlockId = nat

  const NO_BLOCK: BlockId := 0

  // ---------- The history ----------

  /** `Forget` covers both a removal and an eviction. */
  datatype Event = Touch(id: BlockId) | Insert(id: BlockId) | Forget(id: BlockId)

  type History = seq<Event>

  ghost predicate Tracked(h: History, id: BlockId)
  {
    if h == [] then false else
    match h[|h| - 1]
    case Insert(x) => x == id || Tracked(h[..|h| - 1], id)
    case Forget(x) => x != id && Tracked(h[..|h| - 1], id)
    case Touch(_) => Tracked(h[..|h| - 1], id)
  }

  /** Touches since the block was last inserted as new, the insertion included. */
  ghost function Touches(h: History, id: BlockId): nat
  {
    if h == [] then 0 else
    var before := h[..|h| - 1];
    match h[|h| - 1]
    case Insert(x) => if x != id then Touches(before, id) else if Tracked(before, id) then Touches(before, id) + 1 else 1
    case Touch(x) => if x == id && Tracked(before, id) then Touches(before, id) + 1 else Touches(before, id)
    case Forget(_) => Touches(before, id)
  }

  /** The position of the event that touched the block last. */
  ghost function LastTouch(h: History, id: BlockId): int
  {
    if h == [] then -1 else
    var before := h[..|h| - 1];
    match h[|h| - 1]
    case Insert(x) => if x == id then |before| else LastTouch(before, id)
    case Touch(x) => if x == id && Tracked(before, id) then |before| else LastTouch(before, id)
    case Forget(_) => LastTouch(before, id)
  }

  lemma {:induction false} LastTouchBound(h: History, id: BlockId)
    ensures LastTouch(h, id) < |h|
    decreases |h|
  {
    if h != [] { LastTouchBound(h[..|h| - 1], id); }
  }

  /** What one more event does to the three measures. */
  lemma Extend(h: History, e: Event, id: BlockId)
    ensures var g := h + [e];
            && Tracked(g, id) == (if e.Insert? then e.id == id || Tracked(h, id)
                                  else if e.Forget? then e.id != id && Tracked(h, id) else Tracked(h, id))
            && (e.id != id || e.Forget? ==> Touches(g, id) == Touches(h, id) && LastTouch(g, id) == LastTouch(h, id))
            && (e.id == id && !e.Forget? && Tracked(h, id) ==> Touches(g, id) == Touches(h, id) + 1 && LastTouch(g, id) == |h|)
            && (e.id == id && e.Insert? && !Tracked(h, id) ==> Touches(g, id) == 1 && LastTouch(g, id) == |h|)
            && LastTouch(h, id) < |h|
  {
    var g := h + [e];
    assert g[..|g| - 1] == h && g[|g| - 1] == e;
    LastTouchBound(h, id);
  }

  // ---------- Lists ----------

  /** `std::list::remove`: all occurrences go. */
  function Drop(s: seq<BlockId>, id: BlockId): (r: seq<BlockId>)
    ensures forall x :: x in r <==> x in s && x != id
    ensures |r| <= |s|
    ensures id !in s ==> r == s
  {
    if s == [] then [] else
    var t := Drop(s[1..], id);
    assert s == [s[0]] + s[1..];
    if s[0] == id then t else [s[0]] + t
  }

  /** Front to back, every block was touched before the next one. */
  ghost predicate ByRecency(h: History, s: seq<BlockId>)
  {
    forall i, j {:trigger s[i], s[j]} | 0 <= i < j < |s| :: LastTouch(h, s[i]) < LastTouch(h, s[j])
  }

  lemma {:induction false} DropKeepsRecency(h: History, s: seq<BlockId>, id: BlockId)
    requires ByRecency(h, s)
    ensures ByRecency(h, Drop(s, id))
    decreases |s|
  {
    if s != [] {
      var t := s[1..];
      assert forall i, j | 0 <= i < j < |t| :: t[i] == s[i + 1] && t[j] == s[j + 1];
      DropKeepsRecency(h, t, id);
      if s[0] != id {
        var r := Drop(t, id);
        forall j | 0 <= j < |r| ensures LastTouch(h, s[0]) < LastTouch(h, r[j]) {
          assert r[j] in r && r[j] in t;
          var k :| 0 <= k < |t| && t[k] == r[j];
          assert s[k + 1] == r[j];
        }
      }
    }
  }

  /** A list not mentioning the touched block keeps its order under one more event. */
  lemma RecencyExtends(h: History, e: Event, s: seq<BlockId>)
    requires ByRecency(h, s) && (e.id !in s || e.Forget?)
    ensures ByRecency(h + [e], s)
  {
    forall i, j | 0 <= i < j < |s| ensures LastTouch(h + [e], s[i]) < LastTouch(h + [e], s[j]) {
      Extend(h, e, s[i]);
      Extend(h, e, s[j]);
    }
  }

  lemma RecencyAppends(h: History, e: Event, s: seq<BlockId>)
    requires ByRecency(h, s) && e.id !in s && !e.Forget? && (Tracked(h, e.id) || e.Insert?)
    ensures ByRecency(h + [e], s + [e.id])
  {
    RecencyExtends(h, e, s);
    var r := s + [e.id];
    forall i, j | 0 <= i < j < |r| ensures LastTouch(h + [e], r[i]) < LastTouch(h + [e], r[j]) {
      if j == |s| {
        Extend(h, e, r[i]);
        Extend(h, e, e.id);
      }
    }
  }

  // ---------- LRU ----------

  function LruAccess(s: seq<BlockId>, id: BlockId): seq<BlockId>
  {
    if id in s then Drop(s, id) + [id] else s
  }

  function LruInsert(s: seq<BlockId>, id: BlockId): seq<BlockId>
  {
    Drop(s, id) + [id]
  }

  ghost predicate LruFits(h: History, s: seq<BlockId>)
  {
    ByRecency(h, s) && forall id :: id in s <==> Tracked(h, id)
  }

  lemma LruKeeps(h: History, s: seq<BlockId>, id: BlockId)
    requires LruFits(h, s)
    ensures LruFits(h + [Touch(id)], LruAccess(s, id))
    ensures LruFits(h + [Insert(id)], LruInsert(s, id))
    ensures LruFits(h + [Forget(id)], Drop(s, id))
  {
    DropKeepsRecency(h, s, id);
    RecencyExtends(h, Forget(id), Drop(s, id));
    RecencyAppends(h, Insert(id), Drop(s, id));
    if id in s { RecencyAppends(h, Touch(id), Drop(s, id)); } else { RecencyExtends(h, Touch(id), s); }
    forall x ensures (x in LruAccess(s, id) <==> Tracked(h + [Touch(id)], x))
                     && (x in LruInsert(s, id) <==> Tracked(h + [Insert(id)], x))
                     && (x in Drop(s, id) <==> Tracked(h + [Forget(id)], x)) {
      Extend(h, Touch(id), x);
      Extend(h, Insert(id), x);
      Extend(h, Forget(id), x);
    }
  }

  // ---------- LFU ----------

  datatype Lfu = Lfu(freq: map<BlockId, nat>, lists: map<nat, seq<BlockId>>, minFreq: nat)

  const EMPTY_LFU := Lfu(map[], map[], 0)

  function ListAt(s: Lfu, f: nat): seq<BlockId>
  {
    if f in s.lists then s.lists[f] else []
  }

  /** A frequency whose list has run empty loses its list. */
  function SetList(lists: map<nat, seq<BlockId>>, f: nat, l: seq<BlockId>): map<nat, seq<BlockId>>
  {
    if l == [] then lists - {f} else lists[f := l]
  }

  function LfuAccess(s: Lfu, id: BlockId): Lfu
  {
    if id !in s.freq then s else
    var old_, new_ := s.freq[id], s.freq[id] + 1;
    var rest := Drop(ListAt(s, old_), id);
    var lists := SetList(s.lists, old_, rest);
    Lfu(s.freq[id := new_],
        lists[new_ := (if new_ in lists then lists[new_] else []) + [id]],
        if rest == [] && s.minFreq == old_ then new_ else s.minFreq)
  }

  function LfuInsert(s: Lfu, id: BlockId): Lfu
  {
    if id in s.freq then LfuAccess(s, id)
    else Lfu(s.freq[id := 1], s.lists[1 := ListAt(s, 1) + [id]], 1)
  }

  function LfuRemove(s: Lfu, id: BlockId): Lfu
  {
    if id !in s.freq then s else
    var f := s.freq[id];
    Lfu(s.freq - {id}, SetList(s.lists, f, Drop(ListAt(s, f), id)), s.minFreq)
  }

  ghost function Least(keys: set<nat>): (m: nat)
    requires keys != {}
    ensures m in keys && forall k | k in keys :: m <= k
  {
    var x :| x in keys;
    if keys == {x} then x else
    var m := Least(keys - {x});
    assert forall k | k in keys :: k == x || k in keys - {x};
    if x < m then x else m
  }

  /** The front of the list of the lowest frequency in use. */
  ghost function LfuVictim(s: Lfu): BlockId
    requires s.lists != map[] && forall f | f in s.lists :: s.lists[f] != []
  {
    s.lists[Least(s.lists.Keys)][0]
  }

  ghost function LfuEvict(s: Lfu): Lfu
    requires s.lists != map[] && forall f | f in s.lists :: s.lists[f] != []
  {
    var m: nat := Least(s.lists.Keys);
    Lfu(s.freq - {s.lists[m][0]}, SetList(s.lists, m, s.lists[m][1..]), m)
  }

  ghost predicate ListFits(h: History, s: Lfu, f: nat)
  {
    && ByRecency(h, ListAt(s, f))
    && forall id :: id in ListAt(s, f) <==> Tracked(h, id) && Touches(h, id) == f
  }

  ghost predicate FreqFits(h: History, s: Lfu, id: BlockId)
  {
    && (id in s.freq <==> Tracked(h, id))
    && (id in s.freq ==> s.freq[id] == Touches(h, id) && s.minFreq <= s.freq[id])
  }

  /** The state is what the history demands, and `minFreq` is a lower bound of all frequencies in use. */
  ghost predicate LfuFits(h: History, s: Lfu)
  {
    && (forall id {:trigger FreqFits(h, s, id)} :: FreqFits(h, s, id))
    && (forall f {:trigger ListFits(h, s, f)} :: ListFits(h, s, f))
    && (forall f | f in s.lists :: s.lists[f] != [])
  }

  lemma LfuAccessKeeps(h: History, s: Lfu, id: BlockId, e: Event)
    requires LfuFits(h, s) && e.id == id && !e.Forget? && id in s.freq
    ensures LfuFits(h + [e], LfuAccess(s, id))
  {
    var g, t := h + [e], LfuAccess(s, id);
    var old_, new_ := s.freq[id], s.freq[id] + 1;
    assert FreqFits(h, s, id) && ListFits(h, s, old_);
    forall x ensures FreqFits(g, t, x) {
      assert FreqFits(h, s, x);
      Extend(h, e, x);
      assert x in s.freq && s.freq[x] == old_ ==> x in ListAt(s, old_);
    }
    forall f ensures ListFits(g, t, f) {
      assert ListFits(h, s, f);
      forall x ensures x in ListAt(t, f) <==> Tracked(g, x) && Touches(g, x) == f {
        Extend(h, e, x);
      }
      DropKeepsRecency(h, ListAt(s, f), id);
      if f == new_ {
        RecencyAppends(h, e, ListAt(s, f));
      } else {
        RecencyExtends(h, e, Drop(ListAt(s, f), id));
      }
    }
  }

  lemma LfuInsertKeeps(h: History, s: Lfu, id: BlockId)
    requires LfuFits(h, s)
    ensures LfuFits(h + [Insert(id)], LfuInsert(s, id))
  {
    assert FreqFits(h, s, id);
    if id in s.freq {
      LfuAccessKeeps(h, s, id, Insert(id));
    } else {
      var g, t := h + [Insert(id)], LfuInsert(s, id);
      forall x ensures FreqFits(g, t, x) {
        assert FreqFits(h, s, x);
        Extend(h, Insert(id), x);
        TouchesPositive(h, x);
      }
      forall f ensures ListFits(g, t, f) {
        assert ListFits(h, s, f);
        forall x ensures x in ListAt(t, f) <==> Tracked(g, x) && Touches(g, x) == f {
          Extend(h, Insert(id), x);
        }
        if f == 1 { RecencyAppends(h, Insert(id), ListAt(s, f)); } else { RecencyExtends(h, Insert(id), ListAt(s, f)); }
      }
    }
  }

  lemma {:induction false} TouchesPositive(h: History, id: BlockId)
    ensures Tracked(h, id) ==> Touches(h, id) >= 1
    decreases |h|
  {
    if h != [] { TouchesPositive(h[..|h| - 1], id); }
  }

  lemma LfuTouchKeeps(h: History, s: Lfu, id: BlockId)
    requires LfuFits(h, s)
    ensures LfuFits(h + [Touch(id)], LfuAccess(s, id))
  {
    assert FreqFits(h, s, id);
    if id in s.freq {
      LfuAccessKeeps(h, s, id, Touch(id));
    } else {
      var g := h + [Touch(id)];
      forall x ensures FreqFits(g, s, x) {
        assert FreqFits(h, s, x);
        Extend(h, Touch(id), x);
      }
      forall f ensures ListFits(g, s, f) {
        assert ListFits(h, s, f);
        forall x ensures x in ListAt(s, f) <==> Tracked(g, x) && Touches(g, x) == f { Extend(h, Touch(id), x); }
        RecencyExtends(h, Touch(id), ListAt(s, f));
      }
    }
  }

  /** Forgetting a block, whether by removal or by eviction: only its own list changes. */
  lemma LfuForgetKeeps(h: History, s: Lfu, id: BlockId, t: Lfu)
    requires LfuFits(h, s) && id in s.freq
    requires t.freq == s.freq - {id} && t.minFreq <= Least(s.freq.Values)
    requires t.lists == SetList(s.lists, s.freq[id], Drop(ListAt(s, s.freq[id]), id))
    ensures LfuFits(h + [Forget(id)], t)
  {
    var g := h + [Forget(id)];
    assert FreqFits(h, s, id);
    forall x ensures FreqFits(g, t, x) {
      assert FreqFits(h, s, x);
      Extend(h, Forget(id), x);
      if x in s.freq { assert s.freq[x] in s.freq.Values; }
    }
    forall f ensures ListFits(g, t, f) {
      assert ListFits(h, s, f);
      forall x ensures x in ListAt(t, f) <==> Tracked(g, x) && Touches(g, x) == f { Extend(h, Forget(id), x); }
      DropKeepsRecency(h, ListAt(s, f), id);
      RecencyExtends(h, Forget(id), ListAt(t, f));
    }
  }

  lemma LfuRemoveKeeps(h: History, s: Lfu, id: BlockId)
    requires LfuFits(h, s)
    ensures LfuFits(h + [Forget(id)], LfuRemove(s, id))
  {
    assert FreqFits(h, s, id);
    if id in s.freq {
      assert s.freq[id] in s.freq.Values;
      forall x | x in s.freq ensures s.minFreq <= s.freq[x] { assert FreqFits(h, s, x); }
      LfuForgetKeeps(h, s, id, LfuRemove(s, id));
    } else {
      var g := h + [Forget(id)];
      forall x ensures FreqFits(g, s, x) {
        assert FreqFits(h, s, x);
        Extend(h, Forget(id), x);
      }
      forall f ensures ListFits(g, s, f) {
        assert ListFits(h, s, f);
        forall x ensures x in ListAt(s, f) <==> Tracked(g, x) && Touches(g, x) == f { Extend(h, Forget(id), x); }
        RecencyExtends(h, Forget(id), ListAt(s, f));
      }
    }
  }

  /** The frequencies that have a list are those that some tracked block has. */
  lemma LfuListKeys(h: History, s: Lfu)
    requires LfuFits(h, s)
    ensures s.lists.Keys == s.freq.Values
  {
    forall f ensures f in s.lists <==> f in s.freq.Values {
      assert ListFits(h, s, f);
      if f in s.lists {
        var x := s.lists[f][0];
        assert x in ListAt(s, f) && FreqFits(h, s, x);
        assert s.freq[x] == f;
      }
      if f in s.freq.Values {
        var x :| x in s.freq && s.freq[x] == f;
        assert FreqFits(h, s, x) && x in ListAt(s, f);
      }
    }
  }

  lemma DropFront(h: History, s: seq<BlockId>)
    requires s != [] && ByRecency(h, s)
    ensures Drop(s, s[0]) == s[1..]
  {
    assert s[0] !in s[1..];
  }

  // ---------- Either policy ----------

  datatype Policy = LruPolicy(order: seq<BlockId>) | LfuPolicy(lfu: Lfu)

  ghost predicate Fits(h: History, p: Policy)
  {
    match p
    case LruPolicy(order) => LruFits(h, order)
    case LfuPolicy(lfu) => LfuFits(h, lfu)
  }

  function Size(p: Policy): nat
  {
    match p
    case LruPolicy(order) => |order|
    case LfuPolicy(lfu) => |lfu.freq|
  }

  function PolicyAccess(p: Policy, id: BlockId): Policy
  {
    match p
    case LruPolicy(order) => LruPolicy(LruAccess(order, id))
    case LfuPolicy(lfu) => LfuPolicy(LfuAccess(lfu, id))
  }

  function PolicyInsert(p: Policy, id: BlockId): Policy
  {
    match p
    case LruPolicy(order) => LruPolicy(LruInsert(order, id))
    case LfuPolicy(lfu) => LfuPolicy(LfuInsert(lfu, id))
  }

  function PolicyRemove(p: Policy, id: BlockId): Policy
  {
    match p
    case LruPolicy(order) => LruPolicy(Drop(order, id))
    case LfuPolicy(lfu) => LfuPolicy(LfuRemove(lfu, id))
  }

  ghost predicate CanEvict(p: Policy)
  {
    match p
    case LruPolicy(order) => order != []
    case LfuPolicy(lfu) => lfu.lists != map[] && forall f | f in lfu.lists :: lfu.lists[f] != []
  }

  ghost function Victim(p: Policy): BlockId
    requires CanEvict(p)
  {
    match p
    case LruPolicy(order) => order[0]
    case LfuPolicy(lfu) => LfuVictim(lfu)
  }

  ghost function PolicyEvict(p: Policy): Policy
    requires CanEvict(p)
  {
    match p
    case LruPolicy(order) => LruPolicy(order[1..])
    case LfuPolicy(lfu) => LfuPolicy(LfuEvict(lfu))
  }

  /** Every event keeps the state in step with the history. */
  lemma PolicyKeeps(h: History, p: Policy, id: BlockId)
    requires Fits(h, p)
    ensures Fits(h + [Touch(id)], PolicyAccess(p, id))
    ensures Fits(h + [Insert(id)], PolicyInsert(p, id))
    ensures Fits(h + [Forget(id)], PolicyRemove(p, id))
  {
    match p
    case LruPolicy(order) => LruKeeps(h, order, id);
    case LfuPolicy(lfu) =>
      LfuTouchKeeps(h, lfu, id);
      LfuInsertKeeps(h, lfu, id);
      LfuRemoveKeeps(h, lfu, id);
  }

  /** `a` goes before `b`: by recency, and for LFU by fewer touches first. */
  ghost predicate Before(h: History, p: Policy, a: BlockId, b: BlockId)
  {
    if p.LruPolicy? then LastTouch(h, a) < LastTouch(h, b)
    else Touches(h, a) < Touches(h, b) || (Touches(h, a) == Touches(h, b) && LastTouch(h, a) < LastTouch(h, b))
  }

  lemma TrackedIs(h: History, p: Policy)
    requires Fits(h, p)
    ensures forall id :: Tracked(h, id) ==> Size(p) > 0
    ensures CanEvict(p) <==> Size(p) > 0
  {
    match p
    case LruPolicy(order) =>
      if order != [] { assert order[0] in order; }
    case LfuPolicy(lfu) =>
      LfuListKeys(h, lfu);
      forall id ensures id in lfu.freq <==> Tracked(h, id) { assert FreqFits(h, lfu, id); }
      if lfu.freq != map[] {
        var x :| x in lfu.freq;
        assert lfu.freq[x] in lfu.freq.Values;
      }
  }

  /** The victim is tracked, goes before every other tracked block, and is forgotten; nothing else changes. */
  lemma EvictIsLeast(h: History, p: Policy)
    requires Fits(h, p) && CanEvict(p)
    ensures Tracked(h, Victim(p)) && Fits(h + [Forget(Victim(p))], PolicyEvict(p))
    ensures Size(PolicyEvict(p)) == Size(p) - 1
    ensures forall id | Tracked(h, id) && id != Victim(p) :: Before(h, p, Victim(p), id)
  {
    match p
    case LruPolicy(order) =>
      DropFront(h, order);
      LruKeeps(h, order, order[0]);
      assert order[0] in order;
      forall id | Tracked(h, id) && id != order[0] ensures LastTouch(h, order[0]) < LastTouch(h, id) {
        var k :| 0 <= k < |order| && order[k] == id;
      }
    case LfuPolicy(lfu) => LfuEvictIsLeast(h, lfu);
  }

  lemma LfuEvictIsLeast(h: History, s: Lfu)
    requires LfuFits(h, s) && s.lists != map[]
    ensures var v := LfuVictim(s);
            && Tracked(h, v) && LfuFits(h + [Forget(v)], LfuEvict(s)) && |LfuEvict(s).freq| == |s.freq| - 1
            && forall id | Tracked(h, id) && id != v :: Before(h, LfuPolicy(s), v, id)
  {
    LfuListKeys(h, s);
    var m: nat := Least(s.lists.Keys);
    var v := s.lists[m][0];
    assert ListFits(h, s, m) && v in ListAt(s, m) && FreqFits(h, s, v);
    DropFront(h, s.lists[m]);
    assert m <= Least(s.freq.Values);
    LfuForgetKeeps(h, s, v, LfuEvict(s));
    forall id | Tracked(h, id) && id != v ensures Before(h, LfuPolicy(s), v, id) {
      assert FreqFits(h, s, id);
      assert s.freq[id] in s.freq.Values;
      if s.freq[id] == m {
        var k :| 0 <= k < |s.lists[m]| && s.lists[m][k] == id;
        assert LastTouch(h, s.lists[m][0]) < LastTouch(h, s.lists[m][k]);
      }
    }
  }

  /** The blocks in the order in which repeated eviction takes them. */
  ghost function EvictionOrder(h: History, p: Policy): seq<BlockId>
    requires Fits(h, p)
    decreases Size(p)
  {
    TrackedIs(h, p);
    if Size(p) == 0 then [] else
    EvictIsLeast(h, p);
    [Victim(p)] + EvictionOrder(h + [Forget(Victim(p))], PolicyEvict(p))
  }

  ghost predicate Sorted(h: History, p: Policy, s: seq<BlockId>)
  {
    forall i, j {:trigger s[i], s[j]} | 0 <= i < j < |s| :: Before(h, p, s[i], s[j])
  }

  /** The eviction order lists every tracked block once, sorted: for LFU by touches, then recency. */
  lemma {:induction false} EvictionOrderSorted(h: History, p: Policy)
    requires Fits(h, p)
    ensures Sorted(h, p, EvictionOrder(h, p))
    ensures forall id :: id in EvictionOrder(h, p) <==> Tracked(h, id)
    decreases Size(p)
  {
    TrackedIs(h, p);
    if Size(p) > 0 {
      EvictIsLeast(h, p);
      var v, g, q := Victim(p), h + [Forget(Victim(p))], PolicyEvict(p);
      var rest := EvictionOrder(g, q);
      var all := EvictionOrder(h, p);
      EvictionOrderSorted(g, q);
      assert all == [v] + rest;
      forall id ensures id in all <==> Tracked(h, id) {
        Extend(h, Forget(v), id);
      }
      forall i, j | 0 <= i < j < |all| ensures Before(h, p, all[i], all[j]) {
        assert all[j] == rest[j - 1] && all[j] in rest;
        Extend(h, Forget(v), all[j]);
        if i > 0 {
          assert all[i] == rest[i - 1] && Before(g, q, rest[i - 1], rest[j - 1]);
          Extend(h, Forget(v), all[i]);
        }
      }
    }
  }
}
