/**
 * The cache manager: one eviction policy plus the byte accounting, and the choice of eviction
 * candidates as the shortest prefix of the policy's eviction order that frees enough bytes.
 */
module CacheManagers {
  import opened Common
  import opened CachePolicy

  // ---------- Sums ----------

  ghost function Sum(m: map<BlockId, nat>): nat
  {
    if m == map[] then 0 else
    var k :| k in m;
    m[k] + Sum(m - {k})
  }

  /** The sum does not depend on the order in which keys are taken. */
  lemma {:induction false} SumTake(m: map<BlockId, nat>, k: BlockId)
    requires k in m
    ensures Sum(m) == m[k] + Sum(m - {k})
    decreases |m|
  {
    var j :| j in m && Sum(m) == m[j] + Sum(m - {j});
    if j != k {
      assert |m - {j}| < |m| by { assert (m - {j}).Keys == m.Keys - {j}; }
      assert |m - {k}| < |m| by { assert (m - {k}).Keys == m.Keys - {k}; }
      SumTake(m - {j}, k);
      SumTake(m - {k}, j);
      assert m - {j} - {k} == m - {k} - {j};
    }
  }

  lemma SumPut(m: map<BlockId, nat>, k: BlockId, v: nat)
    ensures Sum(m[k := v]) == v + Sum(m - {k})
  {
    SumTake(m[k := v], k);
    assert m[k := v] - {k} == m - {k};
  }

  function SizeOf(sizes: map<BlockId, nat>, id: BlockId): nat
  {
    if id in sizes then sizes[id] else 0
  }

  function SumOver(sizes: map<BlockId, nat>, ids: seq<BlockId>): nat
  {
    if ids == [] then 0 else SizeOf(sizes, ids[0]) + SumOver(sizes, ids[1..])
  }

  lemma {:induction false} SumOverOthers(sizes: map<BlockId, nat>, gone: BlockId, ids: seq<BlockId>)
    requires gone !in ids
    ensures SumOver(sizes - {gone}, ids) == SumOver(sizes, ids)
    decreases |ids|
  {
    if ids != [] { SumOverOthers(sizes, gone, ids[1..]); }
  }

  // ---------- State ----------

  datatype Manager = Manager(policy: Policy, sizes: map<BlockId, nat>, total: int)

  function ManagerAccess(m: Manager, id: BlockId): Manager
  {
    m.(policy := PolicyAccess(m.policy, id))
  }

  function ManagerInsert(m: Manager, id: BlockId, size: nat): Manager
  {
    Manager(PolicyInsert(m.policy, id), m.sizes[id := size], m.total + size)
  }

  function ManagerRemove(m: Manager, id: BlockId): Manager
  {
    Manager(PolicyRemove(m.policy, id), m.sizes - {id}, m.total - SizeOf(m.sizes, id))
  }

  ghost function ManagerEvict(m: Manager): Manager
    requires CanEvict(m.policy)
  {
    var v := Victim(m.policy);
    Manager(PolicyEvict(m.policy), m.sizes - {v}, m.total - SizeOf(m.sizes, v))
  }

  /** The policy fits the history, and sizes are known for exactly the tracked blocks. */
  ghost predicate Tracking(h: History, m: Manager)
  {
    && Fits(h, m.policy) && !Tracked(h, NO_BLOCK)
    && (forall id :: id in m.sizes <==> Tracked(h, id))
  }

  /** Besides, the total is the sum of the sizes. */
  ghost predicate ManagerInv(h: History, m: Manager)
  {
    Tracking(h, m) && m.total == Sum(m.sizes)
  }

  lemma ManagerAccessKeeps(h: History, m: Manager, id: BlockId)
    requires ManagerInv(h, m)
    ensures Tracking(h + [Touch(id)], ManagerAccess(m, id)) && ManagerInv(h + [Touch(id)], ManagerAccess(m, id))
  {
    PolicyKeeps(h, m.policy, id);
    forall x ensures Tracked(h + [Touch(id)], x) == Tracked(h, x) { Extend(h, Touch(id), x); }
  }

  /** Inserting keeps the accounting exact if and only if the id is a real one and no bytes were counted for it already. */
  lemma ManagerInsertKeeps(h: History, m: Manager, id: BlockId, size: nat)
    requires ManagerInv(h, m)
    ensures Tracking(h + [Insert(id)], ManagerInsert(m, id, size)) <==> id != NO_BLOCK
    ensures ManagerInv(h + [Insert(id)], ManagerInsert(m, id, size)) <==> id != NO_BLOCK && SizeOf(m.sizes, id) == 0
  {
    var g, t := h + [Insert(id)], ManagerInsert(m, id, size);
    PolicyKeeps(h, m.policy, id);
    forall x ensures x in t.sizes <==> Tracked(g, x) { Extend(h, Insert(id), x); }
    assert NO_BLOCK in t.sizes <==> id == NO_BLOCK;
    SumPut(m.sizes, id, size);
    if id in m.sizes { SumTake(m.sizes, id); } else { assert m.sizes - {id} == m.sizes; }
  }

  lemma ManagerRemoveKeeps(h: History, m: Manager, id: BlockId)
    requires ManagerInv(h, m)
    ensures Tracking(h + [Forget(id)], ManagerRemove(m, id)) && ManagerInv(h + [Forget(id)], ManagerRemove(m, id))
  {
    var g, t := h + [Forget(id)], ManagerRemove(m, id);
    PolicyKeeps(h, m.policy, id);
    forall x ensures x in t.sizes <==> Tracked(g, x) { Extend(h, Forget(id), x); }
    assert NO_BLOCK !in t.sizes;
    if id in m.sizes { SumTake(m.sizes, id); } else { assert m.sizes - {id} == m.sizes; }
  }

  lemma ManagerEvictKeeps(h: History, m: Manager)
    requires Tracking(h, m) && CanEvict(m.policy)
    ensures var v := Victim(m.policy);
            v != NO_BLOCK && v in m.sizes && Tracking(h + [Forget(v)], ManagerEvict(m))
    ensures ManagerInv(h, m) ==> ManagerInv(h + [Forget(Victim(m.policy))], ManagerEvict(m))
  {
    var v := Victim(m.policy);
    EvictIsLeast(h, m.policy);
    var g, t := h + [Forget(v)], ManagerEvict(m);
    forall x ensures x in t.sizes <==> Tracked(g, x) { Extend(h, Forget(v), x); }
    assert NO_BLOCK !in t.sizes;
    SumTake(m.sizes, v);
  }

  // ---------- Eviction candidates ----------

  /** How many blocks must go, front to back, to free `needed` bytes. */
  function Count(order: seq<BlockId>, sizes: map<BlockId, nat>, needed: int): (k: nat)
    ensures k <= |order|
  {
    if needed <= 0 || order == [] then 0
    else 1 + Count(order[1..], sizes, needed - SizeOf(sizes, order[0]))
  }

  /** It is the shortest prefix that frees enough, or everything. */
  lemma {:induction false} CountIsLeast(order: seq<BlockId>, sizes: map<BlockId, nat>, needed: int)
    ensures var k := Count(order, sizes, needed);
            && (SumOver(sizes, order[..k]) >= needed || k == |order|)
            && forall j {:trigger order[..j]} | 0 <= j < k :: SumOver(sizes, order[..j]) < needed
    decreases |order|
  {
    var k := Count(order, sizes, needed);
    if needed > 0 && order != [] {
      CountIsLeast(order[1..], sizes, needed - SizeOf(sizes, order[0]));
      assert order[..k] == [order[0]] + order[1..][..k - 1];
      forall j | 0 <= j < k ensures SumOver(sizes, order[..j]) < needed {
        if j > 0 {
          assert order[..j] == [order[0]] + order[1..][..j - 1];
          assert order[..j][1..] == order[1..][..j - 1];
        }
      }
      assert order[..k][1..] == order[1..][..k - 1];
    }
  }

  /** The state after the first `k` evictions, and the history extended by them. */
  ghost function AfterEvictions(h: History, m: Manager, k: nat): (History, Manager)
    requires Tracking(h, m) && k <= |EvictionOrder(h, m.policy)|
    decreases k
  {
    if k == 0 then (h, m) else
    TrackedIs(h, m.policy);
    ManagerEvictKeeps(h, m);
    AfterEvictions(h + [Forget(Victim(m.policy))], ManagerEvict(m), k - 1)
  }

  /** One eviction takes the head of the order, which does not occur again, and leaves its tail. */
  lemma EvictionStep(h: History, m: Manager)
    requires Tracking(h, m) && |EvictionOrder(h, m.policy)| > 0
    ensures CanEvict(m.policy)
    ensures var v, g, n := Victim(m.policy), h + [Forget(Victim(m.policy))], ManagerEvict(m);
            var order := EvictionOrder(h, m.policy);
            && v in m.sizes && Tracking(g, n) && (ManagerInv(h, m) ==> ManagerInv(g, n)) && order == [v] + EvictionOrder(g, n.policy)
            && order[1..] == EvictionOrder(g, n.policy) && v !in order[1..]
  {
    TrackedIs(h, m.policy);
    ManagerEvictKeeps(h, m);
    var v, g, n := Victim(m.policy), h + [Forget(Victim(m.policy))], ManagerEvict(m);
    EvictionOrderSorted(g, n.policy);
    Extend(h, Forget(v), v);
  }

  /** What evicting a prefix of the order leaves: the invariant and the rest of the order. */
  lemma {:induction false} EvictionsKeep(h: History, m: Manager, k: nat)
    requires Tracking(h, m) && k <= |EvictionOrder(h, m.policy)|
    ensures var (g, t) := AfterEvictions(h, m, k);
            Tracking(g, t) && (ManagerInv(h, m) ==> ManagerInv(g, t)) && EvictionOrder(g, t.policy) == EvictionOrder(h, m.policy)[k..]
    decreases k
  {
    hide Fits, EvictionOrder;
    if k > 0 {
      EvictionStep(h, m);
      var g, n := h + [Forget(Victim(m.policy))], ManagerEvict(m);
      EvictionsKeep(g, n, k - 1);
      assert AfterEvictions(h, m, k) == AfterEvictions(g, n, k - 1);
      TailOfTail(EvictionOrder(h, m.policy), k);
    }
  }

  lemma TailOfTail(s: seq<BlockId>, k: nat)
    requires 0 < k <= |s|
    ensures s[1..][k - 1..] == s[k..]
  {
  }

  /** Taking the head off the books and then the rest of a prefix is taking the whole prefix. */
  lemma AccountOneMore(sizes: map<BlockId, nat>, order: seq<BlockId>, k: nat)
    requires 0 < k <= |order| && order[0] !in order[1..]
    ensures sizes - {order[0]} - Elements(order[1..][..k - 1]) == sizes - Elements(order[..k])
    ensures SizeOf(sizes, order[0]) + SumOver(sizes - {order[0]}, order[1..][..k - 1]) == SumOver(sizes, order[..k])
  {
    var v, rest := order[0], order[1..][..k - 1];
    assert order[..k] == [v] + rest && order[..k][1..] == rest;
    SumOverOthers(sizes, v, rest);
    assert Elements(order[..k]) == {v} + Elements(rest);
  }

  /** Exactly the evicted blocks are no longer accounted for. */
  lemma {:induction false} EvictionsAccount(h: History, m: Manager, k: nat)
    requires Tracking(h, m) && k <= |EvictionOrder(h, m.policy)|
    ensures var gone := EvictionOrder(h, m.policy)[..k];
            var t := AfterEvictions(h, m, k).1;
            t.sizes == m.sizes - Elements(gone) && t.total == m.total - SumOver(m.sizes, gone)
    decreases k
  {
    hide Fits, EvictionOrder;
    var order := EvictionOrder(h, m.policy);
    if k == 0 {
      assert order[..0] == [] && m.sizes - Elements([]) == m.sizes;
    } else {
      EvictionStep(h, m);
      var v, g, n := Victim(m.policy), h + [Forget(Victim(m.policy))], ManagerEvict(m);
      EvictionsAccount(g, n, k - 1);
      assert AfterEvictions(h, m, k) == AfterEvictions(g, n, k - 1);
      AccountOneMore(m.sizes, order, k);
    }
  }

  lemma {:induction false} EvictionsOnLru(h: History, m: Manager, k: nat)
    requires Tracking(h, m) && m.policy.LruPolicy? && k <= |m.policy.order|
    ensures k <= |EvictionOrder(h, m.policy)| && AfterEvictions(h, m, k).1.policy == LruPolicy(m.policy.order[k..])
    decreases k
  {
    LruOrder(h, m.policy);
    if k > 0 {
      EvictionStep(h, m);
      EvictionsOnLru(h + [Forget(Victim(m.policy))], ManagerEvict(m), k - 1);
      assert m.policy.order[1..][k - 1..] == m.policy.order[k..];
    }
  }

  /** For LRU the eviction order is the list itself. */
  lemma {:induction false} LruOrder(h: History, p: Policy)
    requires Fits(h, p) && p.LruPolicy?
    ensures EvictionOrder(h, p) == p.order
    decreases Size(p)
  {
    TrackedIs(h, p);
    if Size(p) > 0 {
      EvictIsLeast(h, p);
      LruOrder(h + [Forget(Victim(p))], PolicyEvict(p));
    }
  }

  /** Evicting `k` and then one more is evicting `k + 1`. */
  lemma {:induction false} EvictionsCompose(h: History, m: Manager, k: nat)
    requires Tracking(h, m) && k < |EvictionOrder(h, m.policy)|
    ensures var (g, t) := AfterEvictions(h, m, k);
            && CanEvict(t.policy)
            && AfterEvictions(h, m, k + 1) == (g + [Forget(Victim(t.policy))], ManagerEvict(t))
    decreases k
  {
    hide Fits, EvictionOrder;
    EvictionStep(h, m);
    var g, n := h + [Forget(Victim(m.policy))], ManagerEvict(m);
    assert AfterEvictions(h, m, k + 1) == AfterEvictions(g, n, k);
    if k > 0 { EvictionsCompose(g, n, k - 1); }
  }

  /** The next victim is the next block of the original order, with its original size. */
  lemma NextVictim(h: History, m: Manager, k: nat)
    requires Tracking(h, m) && k < |EvictionOrder(h, m.policy)|
    ensures var v := EvictionOrder(h, m.policy)[k];
            var t := AfterEvictions(h, m, k).1;
            && CanEvict(t.policy) && Victim(t.policy) == v && v != NO_BLOCK
            && v in t.sizes && v in m.sizes && t.sizes[v] == m.sizes[v]
  {
    var order := EvictionOrder(h, m.policy);
    var (g, t) := AfterEvictions(h, m, k);
    EvictionsKeep(h, m, k);
    EvictionsAccount(h, m, k);
    assert order[k..][0] == order[k];
    EvictionStep(g, t);
    ManagerEvictKeeps(g, t);
  }

  /** A prefix that does not yet free enough is shorter than the one wanted, and one that does is not. */
  lemma CountReached(order: seq<BlockId>, sizes: map<BlockId, nat>, k: nat, needed: int)
    requires k <= Count(order, sizes, needed)
    ensures k < |order| && SumOver(sizes, order[..k]) < needed ==> k < Count(order, sizes, needed)
    ensures k == |order| || SumOver(sizes, order[..k]) >= needed ==> k == Count(order, sizes, needed)
  {
    CountIsLeast(order, sizes, needed);
  }

  /** The eviction loop under way: `victims` were taken off the front of the order. */
  ghost predicate Evicting(h0: History, m0: Manager, needed: int, h: History, m: Manager, victims: seq<BlockId>, freed: int)
    requires Tracking(h0, m0)
  {
    var order := EvictionOrder(h0, m0.policy);
    var k := |victims|;
    && k <= |order| && victims == order[..k]
    && (h, m) == AfterEvictions(h0, m0, k)
    && freed == SumOver(m0.sizes, order[..k])
    && k <= Count(order, m0.sizes, needed)
  }

  lemma EvictingStarts(h: History, m: Manager, needed: int)
    requires Tracking(h, m)
    ensures Evicting(h, m, needed, h, m, [], 0)
  {
    assert EvictionOrder(h, m.policy)[..0] == [];
  }

  lemma EvictingMore(h0: History, m0: Manager, needed: int, h: History, m: Manager, victims: seq<BlockId>, freed: int)
    requires Tracking(h0, m0) && Evicting(h0, m0, needed, h, m, victims, freed)
    requires freed < needed && Size(m.policy) > 0 && Tracking(h, m)
    ensures CanEvict(m.policy)
    ensures var v := Victim(m.policy);
            && v in m.sizes && v != NO_BLOCK && Size(PolicyEvict(m.policy)) < Size(m.policy)
            && Evicting(h0, m0, needed, h + [Forget(v)], ManagerEvict(m), victims + [v], freed + m.sizes[v])
  {
    var order, k := EvictionOrder(h0, m0.policy), |victims|;
    TrackedIs(h, m.policy);
    EvictIsLeast(h, m.policy);
    EvictionsKeep(h0, m0, k);
    assert k < |order|;
    NextVictim(h0, m0, k);
    CountReached(order, m0.sizes, k, needed);
    EvictionsCompose(h0, m0, k);
    assert order[..k + 1] == order[..k] + [order[k]];
    SumOverSnoc(m0.sizes, order[..k], order[k]);
  }

  lemma EvictingEnds(h0: History, m0: Manager, needed: int, h: History, m: Manager, victims: seq<BlockId>, freed: int)
    requires Tracking(h0, m0) && Evicting(h0, m0, needed, h, m, victims, freed) && Tracking(h, m)
    requires freed >= needed || Size(m.policy) == 0
    ensures |victims| == Count(EvictionOrder(h0, m0.policy), m0.sizes, needed)
  {
    EvictionsKeep(h0, m0, |victims|);
    TrackedIs(h, m.policy);
    CountReached(EvictionOrder(h0, m0.policy), m0.sizes, |victims|, needed);
  }

  lemma {:induction false} SumOverSnoc(sizes: map<BlockId, nat>, ids: seq<BlockId>, id: BlockId)
    ensures SumOver(sizes, ids + [id]) == SumOver(sizes, ids) + SizeOf(sizes, id)
    decreases |ids|
  {
    if ids == [] {
      assert ids + [id] == [id];
    } else {
      assert (ids + [id])[1..] == ids[1..] + [id];
      SumOverSnoc(sizes, ids[1..], id);
    }
  }

  // ---------- The objects ----------

  class LruList {
    var order: seq<BlockId>

    constructor ()
      ensures order == []
    {
      order := [];
    }

    method OnAccess(id: BlockId)
      modifies this
      ensures order == LruAccess(old(order), id)
    {
      if id in order {
        order := Drop(order, id);
        order := order + [id];
      }
    }

    method OnInsert(id: BlockId)
      modifies this
      ensures order == LruInsert(old(order), id)
    {
      if id in order { order := Drop(order, id); }
      order := order + [id];
    }

    method OnRemove(id: BlockId)
      modifies this
      ensures order == Drop(old(order), id)
    {
      if id in order { order := Drop(order, id); }
    }

    method Evict() returns (victim: BlockId)
      modifies this
      ensures old(order) == [] ==> victim == NO_BLOCK && order == []
      ensures old(order) != [] ==> victim == old(order)[0] && order == old(order)[1..]
    {
      if order == [] { return NO_BLOCK; }
      victim := order[0];
      order := order[1..];
    }
  }

  class LfuTable {
    var freq: map<BlockId, nat>
    var lists: map<nat, seq<BlockId>>
    var minFreq: nat

    function State(): Lfu
      reads this
    {
      Lfu(freq, lists, minFreq)
    }

    constructor ()
      ensures State() == EMPTY_LFU
    {
      freq, lists, minFreq := map[], map[], 0;
    }

    method OnAccess(id: BlockId)
      modifies this
      ensures State() == LfuAccess(old(State()), id)
    {
      if id !in freq { return; }
      var from := freq[id];
      var to := from + 1;
      freq := freq[id := to];
      var rest := Drop(if from in lists then lists[from] else [], id);
      if rest == [] {
        lists := lists - {from};
        if minFreq == from { minFreq := to; }
      } else {
        lists := lists[from := rest];
      }
      lists := lists[to := (if to in lists then lists[to] else []) + [id]];
    }

    method OnInsert(id: BlockId)
      modifies this
      ensures State() == LfuInsert(old(State()), id)
    {
      if id in freq {
        OnAccess(id);
        return;
      }
      freq := freq[id := 1];
      lists := lists[1 := (if 1 in lists then lists[1] else []) + [id]];
      minFreq := 1;
    }

    method OnRemove(id: BlockId)
      modifies this
      ensures State() == LfuRemove(old(State()), id)
    {
      if id !in freq { return; }
      var f := freq[id];
      var rest := Drop(if f in lists then lists[f] else [], id);
      lists := if rest == [] then lists - {f} else lists[f := rest];
      freq := freq - {id};
    }

    /** Climbs from `minFreq` to the lowest frequency in use; terminates because `minFreq` is a lower bound. */
    method Evict(ghost h: History) returns (victim: BlockId)
      requires LfuFits(h, State())
      modifies this
      ensures old(freq) == map[] ==> victim == NO_BLOCK && State() == old(State())
      ensures old(freq) != map[] ==>
                CanEvict(LfuPolicy(old(State()))) && victim == LfuVictim(old(State())) && State() == LfuEvict(old(State()))
    {
      if freq == map[] { return NO_BLOCK; }
      TrackedIs(h, LfuPolicy(State()));
      LfuListKeys(h, State());
      ghost var m := Least(lists.Keys);
      assert minFreq <= m by {
        var x :| x in freq && freq[x] == m;
        assert FreqFits(h, State(), x);
      }
      while minFreq !in lists || lists[minFreq] == []
        invariant minFreq <= m && freq == old(freq) && lists == old(lists)
        decreases m - minFreq
      {
        minFreq := minFreq + 1;
      }
      var list := lists[minFreq];
      victim := list[0];
      lists := if list[1..] == [] then lists - {minFreq} else lists[minFreq := list[1..]];
      freq := freq - {victim};
    }
  }

  class CacheManager {
    const lru: LruList?
    const lfu: LfuTable?
    var sizes: map<BlockId, nat>
    var total: int
    ghost var h: History

    /** True to its history, though a block inserted twice may have been counted twice. */
    ghost predicate Ready()
      reads this, lru, lfu
    {
      (lru == null <==> lfu != null) && Tracking(h, State())
    }

    ghost predicate Valid()
      reads this, lru, lfu
    {
      Ready() && ManagerInv(h, State())
    }

    function State(): Manager
      requires lru != null || lfu != null
      reads this, lru, lfu
    {
      Manager(if lru != null then LruPolicy(lru.order) else LfuPolicy(lfu.State()), sizes, total)
    }

    constructor (useLru: bool)
      ensures Valid() && h == [] && sizes == map[] && total == 0 && (lru != null) == useLru
      ensures (lru != null ==> fresh(lru)) && (lfu != null ==> fresh(lfu))
    {
      if useLru {
        lru := new LruList();
        lfu := null;
      } else {
        lru := null;
        lfu := new LfuTable();
      }
      sizes, total, h := map[], 0, [];
      new;
      if useLru {
        assert LruFits(h, lru.order);
      } else {
        forall id ensures FreqFits(h, lfu.State(), id) { }
        forall f ensures ListFits(h, lfu.State(), f) { }
      }
    }

    method OnBlockAccess(id: BlockId)
      requires Valid()
      modifies this, lru, lfu
      ensures Valid() && State() == ManagerAccess(old(State()), id) && h == old(h) + [Touch(id)]
    {
      hide ManagerInv, Tracking;
      ManagerAccessKeeps(h, State(), id);
      if lru != null { lru.OnAccess(id); } else { lfu.OnAccess(id); }
      h := h + [Touch(id)];
    }

    /** The accounting stays exact if and only if the block has a real id and was not counted already. */
    method OnBlockInsert(id: BlockId, size: nat)
      requires Valid()
      modifies this, lru, lfu
      ensures (Ready() <==> id != NO_BLOCK) && (Valid() <==> id != NO_BLOCK && SizeOf(old(sizes), id) == 0)
      ensures State() == ManagerInsert(old(State()), id, size) && h == old(h) + [Insert(id)]
    {
      hide ManagerInv, Tracking;
      ManagerInsertKeeps(h, State(), id, size);
      if lru != null { lru.OnInsert(id); } else { lfu.OnInsert(id); }
      sizes := sizes[id := size];
      total := total + size;
      h := h + [Insert(id)];
    }

    method OnBlockRemove(id: BlockId)
      requires Valid()
      modifies this, lru, lfu
      ensures Valid() && State() == ManagerRemove(old(State()), id) && h == old(h) + [Forget(id)]
    {
      hide ManagerInv, Tracking;
      ManagerRemoveKeeps(h, State(), id);
      if lru != null { lru.OnRemove(id); } else { lfu.OnRemove(id); }
      assert id !in sizes ==> sizes - {id} == sizes;
      if id in sizes {
        total := total - sizes[id];
        sizes := sizes - {id};
      }
      h := h + [Forget(id)];
    }

    /** Asks the policy for a victim and takes it off the books. */
    method EvictOne() returns (victim: BlockId)
      requires Ready() && CanEvict(State().policy)
      modifies this, lru, lfu
      ensures Ready() && (old(Valid()) ==> Valid()) && victim == Victim(old(State()).policy) && victim != NO_BLOCK
      ensures State() == ManagerEvict(old(State())) && h == old(h) + [Forget(victim)]
    {
      hide LruFits, LfuFits;
      TrackedIs(h, State().policy);
      ManagerEvictKeeps(h, State());
      if lru != null { victim := lru.Evict(); } else { victim := lfu.Evict(h); }
      if victim in sizes {
        total := total - sizes[victim];
        sizes := sizes - {victim};
      }
      h := h + [Forget(victim)];
    }

    method PolicySize() returns (n: nat)
      requires lru != null || lfu != null
      ensures n == Size(State().policy)
    {
      return if lru != null then |lru.order| else |lfu.freq|;
    }

    /** The shortest prefix of the eviction order that frees the bytes asked for, or every block. */
    method GetEvictionCandidates(needed: nat) returns (victims: seq<BlockId>)
      requires Ready()
      modifies this, lru, lfu
      ensures Ready() && (old(Valid()) ==> Valid())
      ensures var order := EvictionOrder(old(h), old(State()).policy);
              var k := Count(order, old(sizes), needed);
              victims == order[..k] && (h, State()) == AfterEvictions(old(h), old(State()), k)
    {
      victims := [];
      var freed := 0;
      ghost var h0, m0 := h, State();
      EvictingStarts(h0, m0, needed);
      var left := PolicySize();
      while freed < needed && left > 0
        invariant Ready() && (old(Valid()) ==> Valid()) && left == Size(State().policy)
        invariant Evicting(h0, m0, needed, h, State(), victims, freed)
        decreases left
      {
        EvictingMore(h0, m0, needed, h, State(), victims, freed);
        var before := sizes;
        var victim := EvictOne();
        if victim in before { freed := freed + before[victim]; }
        victims := victims + [victim];
        left := PolicySize();
      }
      EvictingEnds(h0, m0, needed, h, State(), victims, freed);
    }
  }
}
