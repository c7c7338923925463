/** The block store as an object over tier objects and the cache manager, updated in place. */
module BlockStoreObjects {
  import opened Common
  import opened CachePolicy
  import opened CacheManagers
  import opened StorageTiers
  import opened BlockStores

  /** The cache manager has given up the candidates; nothing else has changed. */
  ghost predicate Taken(s: State, needed: nat, mid: State, candidates: seq<BlockId>)
    requires Tracking(s.hist, s.mgr)
  {
    var order := EvictionOrder(s.hist, s.mgr.policy);
    var k := Count(order, s.mgr.sizes, needed);
    && candidates == order[..k] && (mid.hist, mid.mgr) == AfterEvictions(s.hist, s.mgr, k)
    && mid.tiers == s.tiers && mid.home == s.home && mid.meta == s.meta
  }

  lemma EvictSplits(s: State, kind: TierType, needed: nat, mid: State, candidates: seq<BlockId>)
    requires Tracking(s.hist, s.mgr) && Taken(s, needed, mid, candidates)
    ensures Evict(s, kind, needed) == EvictList(mid, kind, candidates)
    ensures Inv(s) ==> Inv(Evict(s, kind, needed))
  {
    if Inv(s) { EvictKeeps(s, kind, needed); }
    assert mid == s.(mgr := mid.mgr, hist := mid.hist);
  }

  /** The blocks that live in the tier, in the order given. */
  function InTier(ids: seq<BlockId>, home: map<BlockId, TierType>, kind: TierType): seq<BlockId>
  {
    if ids == [] then [] else
    var before, id := InTier(ids[..|ids| - 1], home, kind), ids[|ids| - 1];
    if id in home && home[id] == kind then before + [id] else before
  }

  lemma {:induction false} InTierMembers(ids: seq<BlockId>, home: map<BlockId, TierType>, kind: TierType, x: BlockId)
    ensures x in InTier(ids, home, kind) <==> x in ids && x in home && home[x] == kind
    decreases |ids|
  {
    if ids != [] {
      assert ids == ids[..|ids| - 1] + [ids[|ids| - 1]];
      InTierMembers(ids[..|ids| - 1], home, kind, x);
    }
  }

  /** What an eviction reports: the candidates that lived in the tier, in eviction order, which are exactly the blocks that left. */
  ghost predicate Reported(s: State, kind: TierType, needed: nat, evicted: seq<BlockId>)
    requires Tracking(s.hist, s.mgr)
  {
    var order := EvictionOrder(s.hist, s.mgr.policy);
    evicted == InTier(order[..Count(order, s.mgr.sizes, needed)], s.home, kind)
  }

  lemma ReportedLeft(s: State, kind: TierType, needed: nat, evicted: seq<BlockId>)
    requires Inv(s) && Reported(s, kind, needed, evicted)
    ensures Elements(evicted) == s.home.Keys - Evict(s, kind, needed).home.Keys
  {
    hide Fits, Evict, EvictionOrder, Structured, InTier;
    EvictKeeps(s, kind, needed);
    var order := EvictionOrder(s.hist, s.mgr.policy);
    var gone := order[..Count(order, s.mgr.sizes, needed)];
    forall x ensures x in evicted <==> x in s.home && x !in Evict(s, kind, needed).home { InTierMembers(gone, s.home, kind, x); }
  }

  /** No block occurs twice among the candidates. */
  lemma CandidatesDiffer(s: State, needed: nat)
    requires Tracking(s.hist, s.mgr)
    ensures var order := EvictionOrder(s.hist, s.mgr.policy);
            Distinct(order[..Count(order, s.mgr.sizes, needed)])
  {
    EvictionOrderSorted(s.hist, s.mgr.policy);
  }

  predicate Distinct(ids: seq<BlockId>)
  {
    forall i, j | 0 <= i < j < |ids| :: ids[i] != ids[j]
  }

  /** Blocks that were dropped are among the candidates done so far. */
  ghost predicate DroppedOnly(before: map<BlockId, TierType>, after: map<BlockId, TierType>, done: seq<BlockId>)
  {
    && (forall x | x in after :: x in before && after[x] == before[x])
    && (forall x | x in before && x !in after :: x in done)
  }

  lemma NoneReported(home: map<BlockId, TierType>, kind: TierType)
    ensures InTier([], home, kind) == [] && DroppedOnly(home, home, [])
  {
  }

  lemma OneMoreReported(candidates: seq<BlockId>, k: nat, home: map<BlockId, TierType>, kind: TierType)
    requires k < |candidates|
    ensures InTier(candidates[..k + 1], home, kind) ==
            InTier(candidates[..k], home, kind) + if candidates[k] in home && home[candidates[k]] == kind then [candidates[k]] else []
    ensures candidates[..k + 1] == candidates[..k] + [candidates[k]]
  {
    assert candidates[..k + 1][..k] == candidates[..k];
  }

  lemma HasStructure(s: State)
    requires Inv(s)
    ensures Structured(s)
  {
  }

  lemma BooksBalance(s: State, i: nat)
    requires Structured(s) && i < |s.tiers|
    ensures TierInv(s.tiers[i])
  {
  }

  /** The type and the capacity of a configured tier. */
  type TierConfig = (TierType, nat)

  predicate OneEach(config: seq<TierConfig>)
  {
    forall i, j | 0 <= i < j < |config| :: config[i].0 != config[j].0
  }

  function OfKind(config: seq<TierConfig>, kind: TierType): seq<TierConfig>
  {
    if config == [] then []
    else (if config[0].0 == kind then [config[0]] else []) + OfKind(config[1..], kind)
  }

  /** The configuration sorted by tier type: memory, then SSD, then HDD. */
  function FastestFirst(config: seq<TierConfig>): seq<TierConfig>
  {
    OfKind(config, Memory) + OfKind(config, SSD) + OfKind(config, HDD)
  }

  lemma {:induction false} OfKindKeeps(config: seq<TierConfig>, kind: TierType)
    ensures forall c :: c in OfKind(config, kind) <==> c in config && c.0 == kind
    ensures OneEach(config) ==> |OfKind(config, kind)| <= 1
  {
    if config != [] {
      assert config == [config[0]] + config[1..];
      OfKindKeeps(config[1..], kind);
      var rest := OfKind(config[1..], kind);
      if rest != [] { assert rest[0] in rest; }
    }
  }

  /** Sorting loses no tier and invents none, and the result is in order of speed. */
  lemma FastestFirstSorts(config: seq<TierConfig>)
    requires OneEach(config)
    ensures var order := FastestFirst(config);
            && OneEach(order) && (config != [] ==> order != []) && (forall c :: c in order <==> c in config)
            && (forall i, j | 0 <= i < j < |order| :: Rank(order[i].0) < Rank(order[j].0))
  {
    hide OfKind;
    OfKindKeeps(config, Memory);
    OfKindKeeps(config, SSD);
    OfKindKeeps(config, HDD);
    var a, b, c := OfKind(config, Memory), OfKind(config, SSD), OfKind(config, HDD);
    assert forall i | 0 <= i < |a| :: a[i] in a;
    assert forall i | 0 <= i < |b| :: b[i] in b;
    assert forall i | 0 <= i < |c| :: c[i] in c;
    if config != [] { assert config[0] in config; }
  }

  class BlockStore {
    const opts: Options
    const tiers: seq<StorageTier>
    const cache: CacheManager
    var home: map<BlockId, TierType>
    var meta: map<BlockId, Meta>

    /** An empty store; whatever the order of the configuration, the tiers are kept fastest first. */
    constructor (opts: Options, config: seq<TierConfig>, useLru: bool)
      requires config != [] && Sane(opts) && OneEach(config)
      ensures Valid() && this.opts == opts && home == map[] && (cache.lru != null <==> useLru)
      ensures var order := FastestFirst(config);
              |tiers| == |order| && forall i | 0 <= i < |tiers| :: tiers[i].Value() == Tier(order[i].0, order[i].1, 0, map[])
    {
      hide FastestFirst;
      this.opts := opts;
      FastestFirstSorts(config);
      var configs := FastestFirst(config);
      var list: seq<StorageTier> := [];
      for i := 0 to |configs|
        invariant |list| == i && (forall j | 0 <= j < i :: fresh(list[j]))
        invariant forall j, k | 0 <= j < k < i :: list[j] != list[k]
        invariant forall j | 0 <= j < i :: list[j].Value() == Tier(configs[j].0, configs[j].1, 0, map[]) && TierInv(list[j].Value())
      {
        var t := new StorageTier(configs[i].0, configs[i].1);
        list := list + [t];
      }
      tiers := list;
      var manager := new CacheManager(useLru);
      cache := manager;
      home, meta := map[], map[];
      new;
      assert Structured(View()) by {
        forall i, id | 0 <= i < |tiers| ensures Lives(View(), i, id) { }
      }
    }

    ghost function Parts(): set<object>
    {
      {this, cache} + (set t | t in tiers)
      + (if cache.lru != null then {cache.lru} else {}) + (if cache.lfu != null then {cache.lfu} else {})
    }

    ghost function TierValues(): seq<Tier>
      reads set t | t in tiers
    {
      seq(|tiers|, i requires 0 <= i < |tiers| reads set t | t in tiers => tiers[i].Value())
    }

    ghost function View(): State
      requires cache.lru != null || cache.lfu != null
      reads Parts()
    {
      State(TierValues(), home, cache.State(), meta, cache.h)
    }

    ghost predicate Apart()
    {
      && (forall i, j | 0 <= i < j < |tiers| :: tiers[i] != tiers[j])
      && (cache.lru == null <==> cache.lfu != null) && Sane(opts)
    }

    ghost predicate Valid()
      reads Parts()
    {
      Apart() && cache.Valid() && Inv(View())
    }

    /** Replacing what one tier object holds is replacing that tier in the view. */
    twostate lemma OneTierChanged(i: nat)
      requires i < |tiers| && Apart()
      requires forall j | 0 <= j < |tiers| && j != i :: unchanged(tiers[j])
      ensures TierValues() == old(TierValues())[i := tiers[i].Value()]
    {
    }

    method FindTier(kind: TierType) returns (r: Option<nat>)
      ensures r == TierIndex(TierValues(), kind)
    {
      for i := 0 to |tiers|
        invariant TierIndex(TierValues(), kind) ==
                  match TierIndex(TierValues()[i..], kind) { case None => None case Some(k) => Some(k + i) }
      {
        assert TierValues()[i..][1..] == TierValues()[i + 1..];
        if tiers[i].kind == kind { return Some(i); }
      }
      return None;
    }

    method FindBlockTier(id: BlockId) returns (r: Option<nat>)
      ensures r == if id in home then TierIndex(TierValues(), home[id]) else None
    {
      if id !in home { return None; }
      r := FindTier(home[id]);
    }

    ghost predicate HasTier(kind: TierType)
    {
      exists i | 0 <= i < |tiers| :: tiers[i].kind == kind
    }

    lemma FindsTier(kind: TierType)
      ensures TierIndex(TierValues(), kind).Some? <==> HasTier(kind)
    {
      if HasTier(kind) {
        var i :| 0 <= i < |tiers| && tiers[i].kind == kind;
        assert TierValues()[i].kind == kind;
      }
    }

    /** One candidate: dropped if it lives in the tier being relieved. */
    method EvictCandidate(kind: TierType, id: BlockId) returns (dropped: bool)
      requires Apart() && cache.Ready()
      modifies Parts()
      ensures View() == EvictAt(old(View()), kind, id)
      ensures cache.State() == old(cache.State()) && cache.h == old(cache.h) && cache.Ready()
      ensures dropped <==> id in old(home) && old(home)[id] == kind && HasTier(kind)
      ensures home == if dropped then old(home) - {id} else old(home)
    {
      if id in home { FindsTier(home[id]); }
      var r := FindBlockTier(id);
      dropped := r.Some? && tiers[r.value].kind == kind;
      if dropped {
        var _ := tiers[r.value].RemoveBlock(id);
        OneTierChanged(r.value);
        meta := meta - {id};
        home := home - {id};
      }
    }

    method EvictEach(kind: TierType, candidates: seq<BlockId>) returns (evicted: seq<BlockId>)
      requires Apart() && cache.Ready()
      modifies Parts()
      ensures View() == EvictList(old(View()), kind, candidates)
      ensures cache.State() == old(cache.State()) && cache.h == old(cache.h) && cache.Ready()
      ensures Distinct(candidates) ==> evicted == if HasTier(kind) then InTier(candidates, old(home), kind) else []
    {
      hide EvictAt, InTier, HasTier;
      evicted := [];
      assert candidates[0..] == candidates && candidates[..0] == [];
      NoneReported(home, kind);
      for k := 0 to |candidates|
        invariant cache.State() == old(cache.State()) && cache.h == old(cache.h) && cache.Ready()
        invariant EvictList(old(View()), kind, candidates) == EvictList(View(), kind, candidates[k..])
        invariant DroppedOnly(old(home), home, candidates[..k])
        invariant Distinct(candidates) ==> evicted == if HasTier(kind) then InTier(candidates[..k], old(home), kind) else []
      {
        assert candidates[k..][0] == candidates[k] && candidates[k..][1..] == candidates[k + 1..];
        OneMoreReported(candidates, k, old(home), kind);
        var dropped := EvictCandidate(kind, candidates[k]);
        if dropped { evicted := evicted + [candidates[k]]; }
      }
      assert candidates[..|candidates|] == candidates;
    }

    method TakeCandidates(needed: nat) returns (candidates: seq<BlockId>)
      requires Apart() && cache.Ready()
      modifies Parts()
      ensures cache.Ready() && Taken(old(View()), needed, View(), candidates)
    {
      candidates := cache.GetEvictionCandidates(needed);
      assert TierValues() == old(TierValues());
    }

    /** Takes the candidates off the cache manager's books, then drops those that live in the tier. */
    method EvictBlocks(kind: TierType, needed: nat) returns (evicted: seq<BlockId>)
      requires Apart() && cache.Ready()
      modifies Parts()
      ensures cache.Ready() && View() == Evict(old(View()), kind, needed) && (old(Valid()) ==> Valid())
      ensures if HasTier(kind) then Reported(old(View()), kind, needed, evicted) else evicted == []
      ensures old(Valid()) ==> Elements(evicted) == old(home.Keys) - home.Keys
    {
      hide Tracking, ManagerInv, Structured, EvictList, HasTier, InTier;
      ghost var s := View();
      CandidatesDiffer(s, needed);
      var candidates := TakeCandidates(needed);
      EvictSplits(s, kind, needed, View(), candidates);
      evicted := EvictEach(kind, candidates);
      if Inv(s) {
        if HasTier(kind) { ReportedLeft(s, kind, needed, evicted); } else { NoneLeave(s, kind, needed); }
      }
    }

    lemma NoneLeave(s: State, kind: TierType, needed: nat)
      requires Inv(s) && !HasTier(kind) && |s.tiers| == |tiers| && forall i | 0 <= i < |tiers| :: s.tiers[i].kind == tiers[i].kind
      ensures Evict(s, kind, needed).home == s.home && s.home.Keys - s.home.Keys == {}
    {
      hide Fits, Evict, EvictionOrder, TierInv, Lives;
      EvictKeeps(s, kind, needed);
      var t := Evict(s, kind, needed);
      forall x | x in s.home ensures s.home[x] != kind { assert Housed(s, x); }
      assert t.home.Keys == s.home.Keys;
    }
  
    method AutoEvict(kind: TierType)
      requires Apart() && cache.Ready()
      modifies Parts()
      ensures cache.Ready() && View() == MaybeAutoEvict(old(View()), opts, kind) && (old(Valid()) ==> Valid())
    {
      hide Inv, ManagerInv, Tracking, Evict, AboveHigh, LowMark;
      var r := FindTier(kind);
      if r.None? { return; }
      var t := tiers[r.value];
      assert TierValues()[r.value] == t.Value();
      if !AboveHigh(t.Value(), opts) { return; }
      var low := LowMark(t.Value(), opts);
      var toFree := if t.used > low then t.used - low else 0;
      if toFree == 0 { return; }
      var _ := EvictBlocks(kind, toFree);
    }

    method FindRoom(size: nat) returns (r: Option<nat>)
      ensures r == Roomy(TierValues(), size)
    {
      for i := 0 to |tiers|
        invariant Roomy(TierValues(), size) ==
                  match Roomy(TierValues()[i..], size) { case None => None case Some(k) => Some(k + i) }
      {
        assert TierValues()[i..][1..] == TierValues()[i + 1..];
        if tiers[i].capacity - tiers[i].used >= size { return Some(i); }
      }
      return None;
    }

    /** Allocation, metadata, mapping and tracking, in this order; a failed metadata write stops after the allocation. */
    method EnterBlock(i: nat, id: BlockId, size: nat, metaOk: bool) returns (status: Status)
      requires Valid() && i < |tiers| && id != NO_BLOCK && Available(tiers[i].Value()) >= size
      modifies Parts()
      ensures cache.Ready()
      ensures status == if id in old(tiers[i].blocks) then AlreadyExists else if metaOk then Ok else IOError
      ensures View() == if status == AlreadyExists then old(View())
                        else if status == Ok then Enter(old(View()), i, id, size) else Reserve(old(View()), i, id, size)
    {
      hide ManagerInv, Tracking, Structured, TierInv, ManagerInsert, Allocated;
      ghost var s := View();
      EnterTracks(s, i, id, size);
      status := ReserveBlock(i, id, size);
      if status != Ok { return; }
      if !metaOk { return IOError; }
      meta := meta[id := Meta(size, tiers[i].kind, 0)];
      home := home[id := tiers[i].kind];
      cache.OnBlockInsert(id, size);
      assert TierValues() == Enter(s, i, id, size).tiers;
    }

    method ReserveBlock(i: nat, id: BlockId, size: nat) returns (status: Status)
      requires Valid() && i < |tiers| && Available(tiers[i].Value()) >= size
      modifies Parts()
      ensures status == if id in old(tiers[i].blocks) then AlreadyExists else Ok
      ensures TierValues() == if status == Ok then old(TierValues())[i := Allocated(old(TierValues())[i], id, size)] else old(TierValues())
      ensures home == old(home) && meta == old(meta) && cache.Valid() && cache.State() == old(cache.State()) && cache.h == old(cache.h)
    {
      ghost var v := TierValues();
      status := tiers[i].AllocateBlock(id, size);
      OneTierChanged(i);
      if status != Ok { assert TierValues() == v; }
    }

    /** The store stays valid exactly when the creation does no harm. */
    method CreateBlock(id: BlockId, size: nat, metaOk: bool) returns (status: Status)
      requires Valid() && id != NO_BLOCK
      modifies Parts()
      ensures Valid() <==> MayCreate(old(View()), id, size, metaOk)
      ensures cache.Ready() && View() == BlockStores.CreateBlock(old(View()), opts, id, size, metaOk).state
      ensures status == BlockStores.CreateBlock(old(View()), opts, id, size, metaOk).status
    {
      hide ManagerInv, Tracking, Evict, Enter, Reserve, MayCreate, Structured;
      CreateKeeps(View(), opts, id, size, metaOk);
      TiersExist(View());
      var r := FindRoom(size);
      var i := 0;
      if r.Some? {
        i := r.value;
      } else {
        EvictKeeps(View(), TierValues()[0].kind, size);
        var _ := EvictBlocks(tiers[0].kind, size);
        assert View().tiers[0] == tiers[0].Value();
        if tiers[0].capacity - tiers[0].used < size { return ResourceExhausted; }
      }
      assert View().tiers[i] == tiers[i].Value();
      status := EnterBlock(i, id, size, metaOk);
      if status == Ok { AutoEvict(tiers[i].kind); }
    }

    method EnsureBlock(id: BlockId, size: nat, metaOk: bool) returns (status: Status)
      requires Valid() && id != NO_BLOCK
      modifies Parts()
      ensures Valid() <==> Safe(old(View()), EnsureOp(id, size, metaOk))
      ensures cache.Ready()
      ensures var o := BlockStores.EnsureBlock(old(View()), opts, id, size, metaOk); View() == o.state && status == o.status
    {
      hide ManagerInv, Tracking, Structured, MayCreate, BlockStores.CreateBlock;
      if id in home { return Ok; }
      status := CreateBlock(id, size, metaOk);
    }

    method WriteBlock(id: BlockId, buf: seq<byte>, offset: nat) returns (status: Status)
      requires Valid()
      modifies Parts()
      ensures Valid()
      ensures var o := BlockStores.WriteBlock(old(View()), id, buf, offset); View() == o.state && status == o.status
    {
      WriteKeeps(View(), id, buf, offset);
      if id in home { Home(View(), id); }
      var r := FindBlockTier(id);
      if r.None? { return NotFound; }
      status := WriteInTier(r.value, id, buf, offset);
    }

    method WriteInTier(i: nat, id: BlockId, buf: seq<byte>, offset: nat) returns (status: Status)
      requires Apart() && cache.Valid() && i < |tiers| && id in tiers[i].blocks && TierInv(TierValues()[i])
      modifies Parts()
      ensures Apart() && cache.Valid()
      ensures status == if CanWrite(old(TierValues())[i], id, offset, buf) then Ok else InvalidArgument
      ensures View() == if status == Ok then Touched(WriteAt(old(View()), i, id, buf, offset), id) else old(View())
    {
      ghost var v := TierValues();
      status := tiers[i].WriteBlock(id, buf, offset);
      OneTierChanged(i);
      if status != Ok {
        assert TierValues() == v;
        return;
      }
      cache.OnBlockAccess(id);
      assert TierValues() == v[i := Written(v[i], id, offset, buf)];
    }

    method RemoveBlock(id: BlockId) returns (status: Status)
      requires Valid()
      modifies Parts()
      ensures Valid() && status == Ok && View() == BlockStores.RemoveBlock(old(View()), id).state
    {
      hide Inv, ManagerInv, Tracking, ManagerRemove, Removed;
      ghost var s := View();
      RemoveKeeps(s, id);
      DropFromTier(id);
      ghost var values := TierValues();
      cache.OnBlockRemove(id);
      meta := meta - {id};
      home := home - {id};
      assert TierValues() == values;
      return Ok;
    }

    method DropFromTier(id: BlockId)
      requires Apart() && cache.Valid()
      modifies Parts()
      ensures cache.Valid() && cache.State() == old(cache.State()) && cache.h == old(cache.h) && home == old(home) && meta == old(meta)
      ensures var v, i := old(TierValues()), if id in home then TierIndex(old(TierValues()), home[id]) else None;
              TierValues() == if i.Some? then v[i.value := Removed(v[i.value], id)] else v
    {
      hide ManagerInv, Tracking, Removed;
      var r := FindBlockTier(id);
      if r.Some? {
        var _ := tiers[r.value].RemoveBlock(id);
        OneTierChanged(r.value);
      }
    }

    method PromoteBlock(id: BlockId, target: TierType) returns (status: Status)
      requires Valid()
      modifies Parts()
      ensures Valid()
      ensures var o := BlockStores.PromoteBlock(old(View()), id, target); View() == o.state && status == o.status
    {
      hide Inv, ManagerInv, Tracking, MoveBlock, TierInv, Structured, SameBytes, HasRoomIn, BlockStores.PromoteBlock, TierIndex, CanAllocate;
      HasStructure(View());
      PromoteKeeps(View(), id, target);
      PromoteCases(View(), id, target);
      var src := FindBlockTier(id);
      if src.None? { return NotFound; }
      if tiers[src.value].kind == target { return Ok; }
      var dst := FindTier(target);
      if dst.None? { return NotFound; }
      status := Relocate(src.value, dst.value, id);
    }

    method Relocate(i: nat, j: nat, id: BlockId) returns (status: Status)
      requires Valid() && i < |tiers| && j < |tiers| && i != j && id in tiers[i].blocks && id in meta && TierInv(TierValues()[i])
      modifies Parts()
      ensures Apart() && cache.Valid()
      ensures var v := old(TierValues());
              status == (if id in v[j].blocks then AlreadyExists
                         else if CanAllocate(v[j], id, v[i].blocks[id].capacity) then Ok else ResourceExhausted)
      ensures View() == if status == Ok then MoveBlock(old(View()), i, j, id) else old(View())
    {
      hide ManagerInv, Tracking, Structured, TierInv;
      BooksBalance(View(), i);
      BooksBalance(View(), j);
      assert TierValues()[i] == tiers[i].Value() && TierValues()[j] == tiers[j].Value();
      status := Transfer(i, j, id);
      if status != Ok { return; }
      if id in meta { meta := meta[id := meta[id].(tier := tiers[j].kind)]; }
      home := home[id := tiers[j].kind];
    }

    /** Export from tier `i`, import into tier `j`, then remove from tier `i`. */
    method Transfer(i: nat, j: nat, id: BlockId) returns (status: Status)
      requires Valid() && i < |tiers| && j < |tiers| && i != j && id in tiers[i].blocks
      requires TierInv(tiers[i].Value()) && TierInv(tiers[j].Value())
      modifies Parts()
      ensures home == old(home) && meta == old(meta) && cache.Valid() && cache.State() == old(cache.State()) && cache.h == old(cache.h)
      ensures var v := old(TierValues());
              var bytes := Contents(v[i].blocks[id]);
              && status == (if id in v[j].blocks then AlreadyExists
                            else if CanAllocate(v[j], id, v[i].blocks[id].capacity) then Ok else ResourceExhausted)
              && TierValues() == if status == Ok then v[j := Imported(v[j], id, bytes)][i := Removed(v[i], id)] else v
    {
      var data;
      status, data := tiers[i].ExportBlock(id);
      ghost var v := TierValues();
      status := tiers[j].ImportBlock(id, data);
      OneTierChanged(j);
      if status != Ok {
        assert TierValues() == v;
        return;
      }
      label Imported:
      var _ := tiers[i].RemoveBlock(id);
      OneTierChanged@Imported(i);
    }
  
    /** A read returns the block's bytes, counts as an access, and may move a hot block one tier up. */
    method ReadBlock(id: BlockId, size: nat, offset: nat) returns (status: Status, buf: seq<byte>)
      requires Valid() && StartsInside(View(), id, offset)
      modifies Parts()
      ensures Valid()
      ensures var o := BlockStores.ReadBlock(old(View()), opts, id, size, offset);
              View() == o.state && status == o.status && buf == o.data
    {
      if id in home { Home(View(), id); }
      var r := FindBlockTier(id);
      if r.None? { return NotFound, []; }
      assert TierValues()[r.value] == tiers[r.value].Value();
      status, buf := ReadFromTier(r.value, id, size, offset);
      AccessedKeeps(View(), id);
      RecordAccess(id);
      AutoPromote(id);
    }

    method ReadFromTier(i: nat, id: BlockId, size: nat, offset: nat) returns (status: Status, buf: seq<byte>)
      requires i < |tiers| && id in tiers[i].blocks && TierInv(tiers[i].Value()) && (tiers[i].kind == Memory ==> offset <= tiers[i].blocks[id].capacity)
      ensures status == Ok && buf == ReadBytes(TierValues()[i], id, size, offset)
    {
      status, buf := tiers[i].ReadBlock(id, size, offset);
    }

    method RecordAccess(id: BlockId)
      requires Valid() && id in home
      modifies Parts()
      ensures Apart() && cache.Valid() && View() == Accessed(old(View()), id)
    {
      ghost var v := TierValues();
      cache.OnBlockAccess(id);
      if id in meta { meta := meta[id := meta[id].(accessCount := meta[id].accessCount + 1)]; }
      assert TierValues() == v;
    }

    method AutoPromote(id: BlockId)
      requires Valid()
      modifies Parts()
      ensures Valid() && View() == MaybeAutoPromote(old(View()), opts, id)
    {
      AutoPromoteKeeps(View(), opts, id);
      if opts.promoteAfter == 0 || id !in home || meta[id].accessCount < opts.promoteAfter { return; }
      var up := Faster(home[id]);
      if up.None? { return; }
      var r := FindTier(up.value);
      if r.None? { return; }
      assert TierValues()[r.value] == tiers[r.value].Value();
      if tiers[r.value].capacity - tiers[r.value].used < meta[id].length { return; }
      var _ := PromoteBlock(id, up.value);
    }
  }
}
