/**
 * What the eviction policy gets to know: over any run its history is the list of events that the
 * operations stand for, with the evictions woven in.  Whoever was used last goes last.
 */
module BlockHistories {
  import opened Common
  import opened CachePolicy
  import opened CacheManagers
  import opened StorageTiers
  import opened BlockStores

  // ---------- One touch ----------

  /** Between the two histories the block was touched once more, after everything else; nothing else has changed. */
  ghost predicate TouchedOnce(before: History, after: History, id: BlockId)
  {
    && Touches(after, id) == Touches(before, id) + 1
    && (forall x :: Tracked(after, x) <==> Tracked(before, x))
    && forall x | x != id ::
         && Touches(after, x) == Touches(before, x) && LastTouch(after, x) == LastTouch(before, x)
         && LastTouch(after, x) < LastTouch(after, id)
  }

  lemma TouchIsOne(h: History, id: BlockId)
    requires Tracked(h, id)
    ensures TouchedOnce(h, h + [Touch(id)], id)
  {
    hide Tracked, Touches, LastTouch;
    forall x ensures var g := h + [Touch(id)];
                     && (Tracked(g, x) <==> Tracked(h, x))
                     && (x != id ==> Touches(g, x) == Touches(h, x) && LastTouch(g, x) == LastTouch(h, x) < |h|)
    {
      Extend(h, Touch(id), x);
    }
    Extend(h, Touch(id), id);
  }

  /** The order in which blocks would be evicted. */
  ghost function Order(s: State): seq<BlockId>
    requires Inv(s)
  {
    EvictionOrder(s.hist, s.mgr.policy)
  }

  /** What a use of a block does to the policy: a tracked block was touched once and under LRU goes last, others are as before. */
  ghost predicate Used(s: State, t: State, id: BlockId)
    requires Inv(s) && Inv(t)
  {
    && t.hist == s.hist + [Touch(id)] && t.mgr.sizes == s.mgr.sizes && t.mgr.total == s.mgr.total
    && (id in s.mgr.sizes ==>
          && TouchedOnce(s.hist, t.hist, id)
          && (s.mgr.policy.LruPolicy? ==> Order(t) == Drop(Order(s), id) + [id]))
    && (id !in s.mgr.sizes ==> t.mgr == s.mgr)
  }

  lemma AccessUses(h: History, m: Manager, id: BlockId)
    requires Tracking(h, m)
    ensures Tracking(h + [Touch(id)], ManagerAccess(m, id))
    ensures id !in m.sizes ==> ManagerAccess(m, id) == m
    ensures id in m.sizes ==> TouchedOnce(h, h + [Touch(id)], id)
    ensures m.policy.LruPolicy? && id in m.sizes ==>
              EvictionOrder(h + [Touch(id)], ManagerAccess(m, id).policy) == Drop(EvictionOrder(h, m.policy), id) + [id]
  {
    hide TouchedOnce, LfuAccess;
    PolicyKeeps(h, m.policy, id);
    forall x ensures Tracked(h + [Touch(id)], x) == Tracked(h, x) { Extend(h, Touch(id), x); }
    if id in m.sizes { TouchIsOne(h, id); }
    if m.policy.LruPolicy? {
      LruOrder(h, m.policy);
      LruOrder(h + [Touch(id)], ManagerAccess(m, id).policy);
      assert id in m.policy.order <==> Tracked(h, id);
    } else {
      UntrackedLfu(h, m.policy.lfu, id);
    }
  }

  lemma UntrackedLfu(h: History, s: Lfu, id: BlockId)
    requires LfuFits(h, s)
    ensures !Tracked(h, id) ==> LfuAccess(s, id) == s
  {
    assert FreqFits(h, s, id);
  }

  lemma ReadUses(s: State, opts: Options, id: BlockId, size: nat, offset: nat)
    requires Inv(s) && StartsInside(s, id, offset) && id in s.home
    ensures var t := ReadBlock(s, opts, id, size, offset).state;
            Inv(t) && Used(s, t, id)
  {
    hide ManagerInv, Fits, Structured, EvictionOrder, MaybeAutoPromote, TouchedOnce, ManagerAccess, Tracked;
    ReadKeeps(s, opts, id, size, offset);
    AccessUses(s.hist, s.mgr, id);
    AccessedKeeps(s, id);
    HasRecord(s, id);
    AutoPromoteKeeps(Accessed(s, id), opts, id);
    ManagerAccessBooks(s.mgr, id);
  }

  lemma ManagerAccessBooks(m: Manager, id: BlockId)
    ensures ManagerAccess(m, id).sizes == m.sizes && ManagerAccess(m, id).total == m.total
  {
  }

  lemma WriteUses(s: State, id: BlockId, buf: seq<byte>, offset: nat)
    requires Inv(s)
    ensures var o := WriteBlock(s, id, buf, offset);
            Inv(o.state) && if o.status == Ok then Used(s, o.state, id) else o.state == s
  {
    hide ManagerInv, Fits, Structured, EvictionOrder, WriteAt, TouchedOnce, ManagerAccess, Tracked, BytesOf;
    WriteKeeps(s, id, buf, offset);
    AccessUses(s.hist, s.mgr, id);
    WriteTouches(s, id, buf, offset);
    ManagerAccessBooks(s.mgr, id);
  }

  lemma WriteTouches(s: State, id: BlockId, buf: seq<byte>, offset: nat)
    ensures var o := WriteBlock(s, id, buf, offset);
            o.status == Ok ==> o.state.hist == s.hist + [Touch(id)] && o.state.mgr == ManagerAccess(s.mgr, id)
  {
  }

  // ---------- Used last, evicted last ----------

  /** One LRU tier: after a use the block is evicted only if the others together do not free enough. */
  lemma UsedOutlives(s: State, t: State, id: BlockId, needed: nat)
    requires Inv(s) && Inv(t) && Exact(s) && Exact(t) && s.mgr.policy.LruPolicy? && t.mgr.policy.LruPolicy? && Used(s, t, id) && id in s.home
    ensures id in Evict(t, t.tiers[0].kind, needed).home <==> needed <= t.tiers[0].used - t.mgr.sizes[id]
  {
    hide Structured, Evict, TouchedOnce, Tracked, Fits;
    LruOrder(s.hist, s.mgr.policy);
    LruOrder(t.hist, t.mgr.policy);
    var others := Drop(s.mgr.policy.order, id);
    assert NewestIs(t, others, id);
    NewestAccounted(t, others, id);
    NewestEvicted(t, others, id, needed);
  }

  lemma ReadOutlives(s: State, opts: Options, id: BlockId, size: nat, offset: nat, needed: nat)
    requires Inv(s) && Exact(s) && StartsInside(s, id, offset) && id in s.home && s.mgr.policy.LruPolicy?
    ensures var t := ReadBlock(s, opts, id, size, offset).state;
            && Inv(t) && |t.tiers| == 1
            && (id in Evict(t, t.tiers[0].kind, needed).home <==> needed <= s.tiers[0].used - BlockOf(s, id).capacity)
  {
    hide ManagerInv, Fits, Structured, Evict, Used, BlockOf;
    ReadKeeps(s, opts, id, size, offset);
    ReadUses(s, opts, id, size, offset);
    ReadStaysLru(s, opts, id, size, offset);
    var t := ReadBlock(s, opts, id, size, offset).state;
    UsedOutlives(s, t, id, needed);
    SameBooks(s, t, id);
  }

  lemma SameBooks(s: State, t: State, id: BlockId)
    requires Inv(s) && Inv(t) && Exact(s) && Exact(t) && Used(s, t, id) && id in s.home
    ensures id in t.mgr.sizes && t.tiers[0].used == s.tiers[0].used && t.mgr.sizes[id] == BlockOf(s, id).capacity
  {
    hide Structured, TouchedOnce, EvictionOrder, Tracking, BlockOf;
    ExactBooks(s);
    ExactBooks(t);
    assert Sized(s, id);
  }

  lemma ReadStaysLru(s: State, opts: Options, id: BlockId, size: nat, offset: nat)
    requires Inv(s) && StartsInside(s, id, offset) && id in s.home && s.mgr.policy.LruPolicy?
    ensures ReadBlock(s, opts, id, size, offset).state.mgr.policy.LruPolicy?
  {
    hide ManagerInv, Tracking, Structured, MaybeAutoPromote;
    AccessedKeeps(s, id);
    HasRecord(s, id);
    AutoPromoteKeeps(Accessed(s, id), opts, id);
  }

  // ---------- Whole runs ----------

  /** After `base` the events `h` are the requests `r`, in order, with evictions of tracked blocks in between. */
  ghost predicate Woven(base: History, h: History, r: History)
    decreases |h|
  {
    if h == [] then r == [] else
    var before, e := h[..|h| - 1], h[|h| - 1];
    || (r != [] && e == r[|r| - 1] && Woven(base, before, r[..|r| - 1]))
    || (e.Forget? && Tracked(base + before, e.id) && Woven(base, before, r))
  }

  ghost predicate Grows(before: History, after: History, r: History)
  {
    before <= after && Woven(before, after[|before|..], r)
  }

  lemma {:induction false} WovenJoins(base: History, h: History, r: History, g: History, q: History)
    requires Woven(base, h, r) && Woven(base + h, g, q)
    ensures Woven(base, h + g, r + q)
    decreases |g|
  {
    hide Tracked;
    if g == [] {
      assert h + g == h && r + q == r;
    } else {
      var before, e := g[..|g| - 1], g[|g| - 1];
      assert (h + g)[..|h + g| - 1] == h + before && (h + g)[|h + g| - 1] == e;
      assert base + (h + before) == base + h + before;
      if q != [] && e == q[|q| - 1] && Woven(base + h, before, q[..|q| - 1]) {
        WovenJoins(base, h, r, before, q[..|q| - 1]);
        assert (r + q)[..|r + q| - 1] == r + q[..|q| - 1];
      } else {
        WovenJoins(base, h, r, before, q);
      }
    }
  }

  lemma GrowsOn(a: History, b: History, c: History, r: History, q: History)
    requires Grows(a, b, r) && Grows(b, c, q)
    ensures Grows(a, c, r + q)
  {
    hide Woven;
    var h, g := b[|a|..], c[|b|..];
    assert b == a + h && c == b + g;
    WovenJoins(a, h, r, g, q);
    assert c[|a|..] == h + g;
  }

  lemma GrowsBy(h: History, e: Event)
    ensures Grows(h, h, []) && Grows(h, h + [e], [e])
    ensures e.Forget? && Tracked(h, e.id) ==> Grows(h, h + [e], [])
  {
    hide Tracked;
    assert h[|h|..] == [] && (h + [e])[|h|..] == [e];
    assert [e][..0] == [] && h + [] == h;
    assert Woven(h, [], []);
  }

  lemma {:induction false} EvictionsGrow(h: History, m: Manager, k: nat)
    requires Tracking(h, m) && k <= |EvictionOrder(h, m.policy)|
    ensures Grows(h, AfterEvictions(h, m, k).0, [])
    decreases k
  {
    hide Fits, EvictionOrder, Grows, Tracked;
    if k == 0 {
      GrowsBy(h, Touch(0));
    } else {
      EvictionStep(h, m);
      var v, g, n := Victim(m.policy), h + [Forget(Victim(m.policy))], ManagerEvict(m);
      GrowsBy(h, Forget(v));
      EvictionsGrow(g, n, k - 1);
      var none: History := [];
      assert none + none == none;
      GrowsOn(h, g, AfterEvictions(g, n, k - 1).0, none, none);
    }
  }

  lemma {:induction false} EvictListHistory(s: State, kind: TierType, victims: seq<BlockId>)
    ensures EvictList(s, kind, victims).hist == s.hist
    decreases |victims|
  {
    if victims != [] { EvictListHistory(EvictAt(s, kind, victims[0]), kind, victims[1..]); }
  }

  lemma EvictGrows(s: State, kind: TierType, needed: nat)
    requires Tracking(s.hist, s.mgr)
    ensures Grows(s.hist, Evict(s, kind, needed).hist, [])
  {
    hide Fits, EvictionOrder, Grows, AfterEvictions, EvictList;
    var order := EvictionOrder(s.hist, s.mgr.policy);
    var k := Count(order, s.mgr.sizes, needed);
    var (g, m) := AfterEvictions(s.hist, s.mgr, k);
    EvictionsGrow(s.hist, s.mgr, k);
    EvictListHistory(s.(mgr := m, hist := g), kind, order[..k]);
  }

  lemma AutoEvictGrows(s: State, opts: Options, kind: TierType)
    requires Tracking(s.hist, s.mgr) && Sane(opts)
    ensures Grows(s.hist, MaybeAutoEvict(s, opts, kind).hist, [])
  {
    hide Tracking, Evict, Grows;
    GrowsBy(s.hist, Touch(0));
    match TierIndex(s.tiers, kind)
    case None =>
    case Some(i) =>
      var t := s.tiers[i];
      if AboveHigh(t, opts) && t.used > LowMark(t, opts) { EvictGrows(s, kind, t.used - LowMark(t, opts)); }
  }

  /** The events an operation stands for, by what it answered. */
  function Requested(s: State, op: Op, status: Status): History
  {
    match op
    case EnsureOp(id, _, _) => if id !in s.home && status == Ok then [Insert(id)] else []
    case ReadOp(id, _, _) => if status == Ok then [Touch(id)] else []
    case WriteOp(id, _, _) => if status == Ok then [Touch(id)] else []
    case RemoveOp(id) => [Forget(id)]
    case PromoteOp(_, _) => []
    case EvictOp(_, _) => []
  }

  lemma CreateInGrows(s: State, opts: Options, i: nat, id: BlockId, size: nat, metaOk: bool)
    requires Inv(s) && Sane(opts) && i < |s.tiers| && id !in s.home && id != NO_BLOCK
    ensures var o := CreateIn(s, opts, i, id, size, metaOk);
            Grows(s.hist, o.state.hist, if o.status == Ok then [Insert(id)] else [])
  {
    hide ManagerInv, Tracking, Structured, Grows, MaybeAutoEvict;
    NotThere(s, i, id);
    GrowsBy(s.hist, Insert(id));
    if metaOk {
      EnterTracks(s, i, id, size);
      var t := Enter(s, i, id, size);
      AutoEvictGrows(t, opts, s.tiers[i].kind);
      GrowsOn(s.hist, t.hist, MaybeAutoEvict(t, opts, s.tiers[i].kind).hist, [Insert(id)], []);
      assert [Insert(id)] + [] == [Insert(id)];
    }
  }

  lemma CreateGrows(s: State, opts: Options, id: BlockId, size: nat, metaOk: bool)
    requires Inv(s) && Sane(opts) && id !in s.home && id != NO_BLOCK
    ensures var o := CreateBlock(s, opts, id, size, metaOk);
            Grows(s.hist, o.state.hist, if o.status == Ok then [Insert(id)] else [])
  {
    hide ManagerInv, Tracking, Structured, Grows, CreateIn, Evict, Roomy;
    TiersExist(s);
    match Roomy(s.tiers, size)
    case Some(i) => CreateInGrows(s, opts, i, id, size, metaOk);
    case None =>
      var first := s.tiers[0].kind;
      var e := Evict(s, first, size);
      EvictGrows(s, first, size);
      EvictOnlyFrom(s, first, size);
      if Available(e.tiers[0]) >= size {
        CreateInGrows(e, opts, 0, id, size, metaOk);
        var o := CreateIn(e, opts, 0, id, size, metaOk);
        var r: History := if o.status == Ok then [Insert(id)] else [];
        GrowsOn(s.hist, e.hist, o.state.hist, [], r);
        assert [] + r == r;
      }
  }

  /** Every operation adds to the history exactly the events it stands for, and evictions. */
  lemma StepGrows(s: State, opts: Options, op: Op)
    requires Inv(s) && Sane(opts) && Callable(s, op)
    ensures var o := Step(s, opts, op);
            Grows(s.hist, o.state.hist, Requested(s, op, o.status))
  {
    hide ManagerInv, Tracking, Structured, Grows, CreateBlock, ReadBlock, WriteBlock, PromoteBlock, Evict, TouchedOnce;
    GrowsBy(s.hist, Touch(0));
    match op
    case EnsureOp(id, size, metaOk) => if id !in s.home { CreateGrows(s, opts, id, size, metaOk); }
    case ReadOp(id, size, offset) =>
      ReadKeeps(s, opts, id, size, offset);
      if id in s.home { ReadUses(s, opts, id, size, offset); } else { ReadReturnsAll(s, opts, id, size, offset); }
      GrowsBy(s.hist, Touch(id));
    case WriteOp(id, buf, offset) =>
      WriteUses(s, id, buf, offset);
      GrowsBy(s.hist, Touch(id));
    case RemoveOp(id) => GrowsBy(s.hist, Forget(id));
    case PromoteOp(id, target) => PromoteKeeps(s, id, target);
    case EvictOp(kind, needed) => EvictGrows(s, kind, needed);
  }

  ghost function RequestedOver(s: State, opts: Options, ops: seq<Op>): History
    requires Inv(s) && Sane(opts) && ValidRun(s, opts, ops)
    decreases |ops|
  {
    if ops == [] then [] else
    StepInv(s, opts, ops[0]);
    var o := Step(s, opts, ops[0]);
    Requested(s, ops[0], o.status) + RequestedOver(o.state, opts, ops[1..])
  }

  /** Over any run the policy's history is the events of the operations, in order, with evictions in between. */
  lemma {:induction false} RunsGrow(s: State, opts: Options, ops: seq<Op>)
    requires Inv(s) && Sane(opts) && ValidRun(s, opts, ops)
    ensures Grows(s.hist, Final(s, opts, ops).hist, RequestedOver(s, opts, ops))
    decreases |ops|
  {
    hide ManagerInv, Tracking, Structured, Step, Grows, Requested, Safe, Callable;
    if ops == [] {
      GrowsBy(s.hist, Touch(0));
    } else {
      StepInv(s, opts, ops[0]);
      var o := Step(s, opts, ops[0]);
      StepGrows(s, opts, ops[0]);
      RunsGrow(o.state, opts, ops[1..]);
      GrowsOn(s.hist, o.state.hist, Final(o.state, opts, ops[1..]).hist, Requested(s, ops[0], o.status), RequestedOver(o.state, opts, ops[1..]));
    }
  }
}
