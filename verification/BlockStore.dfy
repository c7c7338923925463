/**
 * The worker's block store over several tiers, as transitions on values: where every block lives,
 * what it holds, and which blocks the cache manager tracks.
 */
module BlockStores {
  import opened Common
  import opened CachePolicy
  import opened CacheManagers
  import opened StorageTiers

  datatype Meta = Meta(length: nat, tier: TierType, accessCount: nat)

  /** Promotion threshold (0 disables) and the two watermarks as fractions of a tier's capacity. */
  datatype Options = Options(promoteAfter: nat, high: real, low: real)

  datatype State = State(
    tiers: seq<Tier>,
    home: map<BlockId, TierType>,
    mgr: Manager,
    meta: map<BlockId, Meta>,
    hist: History)

  // ---------- Where blocks live ----------

  function TierIndex(tiers: seq<Tier>, kind: TierType): (r: Option<nat>)
    ensures r.Some? ==> r.value < |tiers| && tiers[r.value].kind == kind
    ensures r.None? ==> forall i | 0 <= i < |tiers| :: tiers[i].kind != kind
  {
    if tiers == [] then None
    else if tiers[0].kind == kind then Some(0)
    else match TierIndex(tiers[1..], kind)
         case None => assert forall i | 0 < i < |tiers| :: tiers[i] == tiers[1..][i - 1]; None
         case Some(i) => Some(i + 1)
  }

  ghost predicate Lives(s: State, i: nat, id: BlockId)
    requires i < |s.tiers|
  {
    id in s.tiers[i].blocks <==> id in s.home && s.home[id] == s.tiers[i].kind
  }

  ghost predicate Housed(s: State, id: BlockId)
    requires id in s.home
  {
    TierIndex(s.tiers, s.home[id]).Some?
  }

  /** Every mapped block lives in exactly its mapped tier, tiers hold only mapped blocks, and every tier's books balance. */
  ghost predicate Structured(s: State)
  {
    && s.tiers != []
    && (forall i, j | 0 <= i < j < |s.tiers| :: s.tiers[i].kind != s.tiers[j].kind)
    && (forall i {:trigger TierInv(s.tiers[i])} | 0 <= i < |s.tiers| :: TierInv(s.tiers[i]))
    && (forall i, id {:trigger Lives(s, i, id)} | 0 <= i < |s.tiers| :: Lives(s, i, id))
    && (forall id {:trigger Housed(s, id)} | id in s.home :: Housed(s, id))
    && s.meta.Keys == s.home.Keys && NO_BLOCK !in s.home
  }

  lemma Home(s: State, id: BlockId)
    requires Structured(s) && id in s.home
    ensures TierIndex(s.tiers, s.home[id]).Some?
    ensures var i := TierIndex(s.tiers, s.home[id]).value;
            id in s.tiers[i].blocks && TierInv(s.tiers[i])
  {
    assert Housed(s, id);
    assert Lives(s, TierIndex(s.tiers, s.home[id]).value, id);
  }

  lemma HasRecord(s: State, id: BlockId)
    requires Structured(s) && id in s.home
    ensures id in s.meta
  {
  }

  ghost function BlockOf(s: State, id: BlockId): Block
    requires Structured(s) && id in s.home
  {
    Home(s, id);
    s.tiers[TierIndex(s.tiers, s.home[id]).value].blocks[id]
  }

  ghost function BytesOf(s: State, id: BlockId): seq<byte>
    requires Structured(s) && id in s.home
  {
    Home(s, id);
    Contents(BlockOf(s, id))
  }

  ghost predicate Sized(s: State, id: BlockId)
    requires Structured(s) && id in s.mgr.sizes
  {
    id in s.home && s.mgr.sizes[id] == BlockOf(s, id).capacity
  }

  /** Tracked blocks are stored blocks, accounted for with their capacity. */
  ghost predicate Inv(s: State)
  {
    && Structured(s) && Tracking(s.hist, s.mgr) && ManagerInv(s.hist, s.mgr)
    && forall id {:trigger Sized(s, id)} | id in s.mgr.sizes :: Sized(s, id)
  }

  /** With one tier the tracked blocks are exactly the stored ones. */
  ghost predicate Exact(s: State)
  {
    |s.tiers| == 1 && s.mgr.sizes.Keys == s.home.Keys
  }

  /** A tier can be looked up by its own kind. */
  lemma OwnIndex(s: State, i: nat)
    requires Structured(s) && i < |s.tiers|
    ensures TierIndex(s.tiers, s.tiers[i].kind) == Some(i)
  {
  }

  /** Replacing a tier by one of the same kind leaves all lookups alone. */
  lemma {:induction false} SameIndex(tiers: seq<Tier>, i: nat, t: Tier, kind: TierType)
    requires i < |tiers| && t.kind == tiers[i].kind
    ensures TierIndex(tiers[i := t], kind) == TierIndex(tiers, kind)
    decreases |tiers|
  {
    if i > 0 {
      assert tiers[i := t][1..] == tiers[1..][i - 1 := t];
      SameIndex(tiers[1..], i - 1, t, kind);
    } else {
      assert tiers[i := t][1..] == tiers[1..];
    }
  }

  /** What happened to one block between two states: nothing, or it is gone. */
  ghost predicate Untouched(s: State, t: State, id: BlockId)
    requires Structured(s) && Structured(t)
  {
    id in t.home ==> id in s.home && BytesOf(t, id) == BytesOf(s, id) && BlockOf(t, id).capacity == BlockOf(s, id).capacity
  }

  // ---------- Dropping one block ----------

  function DropBlock(s: State, i: nat, id: BlockId): State
    requires i < |s.tiers|
  {
    s.(tiers := s.tiers[i := Removed(s.tiers[i], id)], home := s.home - {id}, meta := s.meta - {id})
  }

  lemma DropBlockKeeps(s: State, i: nat, id: BlockId)
    requires Structured(s) && i < |s.tiers| && id in s.home && s.home[id] == s.tiers[i].kind
    ensures Structured(DropBlock(s, i, id))
    ensures forall x | x in DropBlock(s, i, id).home ::
              DropBlock(s, i, id).home[x] == s.home[x] && BlockOf(DropBlock(s, i, id), x) == BlockOf(s, x)
  {
    hide TierInv;
    var t := DropBlock(s, i, id);
    RemovedKeeps(s.tiers[i], id);
    assert Lives(s, i, id);
    forall j, x | 0 <= j < |t.tiers| ensures Lives(t, j, x) {
      assert Lives(s, j, x);
    }
    forall x | x in t.home ensures Housed(t, x) {
      assert Housed(s, x);
      SameIndex(s.tiers, i, t.tiers[i], s.home[x]);
    }
    forall x | x in t.home ensures BlockOf(t, x) == BlockOf(s, x) {
      SameIndex(s.tiers, i, t.tiers[i], s.home[x]);
      Home(s, x);
    }
  }

  // ---------- Eviction ----------

  /** One candidate: dropped if it lives in the tier being relieved, otherwise left where it is. */
  function EvictAt(s: State, kind: TierType, id: BlockId): State
  {
    if id !in s.home then s else
    match TierIndex(s.tiers, s.home[id])
    case None => s
    case Some(i) => if s.tiers[i].kind == kind then DropBlock(s, i, id) else s
  }

  function EvictList(s: State, kind: TierType, victims: seq<BlockId>): State
    decreases |victims|
  {
    if victims == [] then s else EvictList(EvictAt(s, kind, victims[0]), kind, victims[1..])
  }

  ghost function Evict(s: State, kind: TierType, needed: nat): State
    requires Tracking(s.hist, s.mgr)
  {
    var order := EvictionOrder(s.hist, s.mgr.policy);
    var k := Count(order, s.mgr.sizes, needed);
    var (g, m) := AfterEvictions(s.hist, s.mgr, k);
    EvictList(s.(mgr := m, hist := g), kind, order[..k])
  }

  /** Some blocks are gone, the others are exactly as they were. */
  ghost predicate Shrunk(s: State, t: State)
    requires Structured(s)
  {
    && Structured(t) && |t.tiers| == |s.tiers|
    && (forall i | 0 <= i < |s.tiers| :: t.tiers[i].kind == s.tiers[i].kind && t.tiers[i].capacity == s.tiers[i].capacity)
    && (forall x {:trigger x in t.home} | x in t.home :: x in s.home && t.home[x] == s.home[x] && BlockOf(t, x) == BlockOf(s, x))
  }

  lemma {:induction false} EvictListKeeps(s: State, kind: TierType, victims: seq<BlockId>)
    requires Structured(s)
    ensures var t := EvictList(s, kind, victims);
            && Shrunk(s, t) && t.mgr == s.mgr && t.hist == s.hist
            && (forall x :: x in t.home <==> x in s.home && !(x in victims && s.home[x] == kind))
    decreases |victims|
  {
    if victims != [] {
      var v := victims[0];
      var m := EvictAt(s, kind, v);
      if v in s.home {
        assert Housed(s, v);
        var i := TierIndex(s.tiers, s.home[v]).value;
        DropBlockKeeps(s, i, v);
        assert s.tiers[i].kind == s.home[v];
      }
      assert Shrunk(s, m);
      EvictListKeeps(m, kind, victims[1..]);
      assert victims == [v] + victims[1..];
    }
  }

  /** Eviction keeps the invariant; the victims are no longer tracked, and those in the tier are gone. */
  lemma EvictKeeps(s: State, kind: TierType, needed: nat)
    requires Inv(s)
    ensures var t := Evict(s, kind, needed);
            var order := EvictionOrder(s.hist, s.mgr.policy);
            var gone := order[..Count(order, s.mgr.sizes, needed)];
            && Inv(t) && Shrunk(s, t)
            && (forall x :: x in t.home <==> x in s.home && !(x in gone && s.home[x] == kind))
            && t.mgr.sizes == s.mgr.sizes - Elements(gone)
            && t.mgr.total == s.mgr.total - SumOver(s.mgr.sizes, gone)
  {
    var order := EvictionOrder(s.hist, s.mgr.policy);
    var k := Count(order, s.mgr.sizes, needed);
    var (g, m) := AfterEvictions(s.hist, s.mgr, k);
    EvictionsKeep(s.hist, s.mgr, k);
    EvictionsAccount(s.hist, s.mgr, k);
    var mid := s.(mgr := m, hist := g);
    StructuredIgnoresManager(s, mid);
    EvictListKeeps(mid, kind, order[..k]);
    var t := Evict(s, kind, needed);
    forall x | x in t.mgr.sizes ensures Sized(t, x) {
      assert Sized(s, x);
    }
    assert Shrunk(s, t);
  }

  lemma StructuredIgnoresManager(s: State, t: State)
    requires Structured(s) && t.tiers == s.tiers && t.home == s.home && t.meta.Keys == s.meta.Keys
    ensures Structured(t)
    ensures forall x | x in t.home :: BlockOf(t, x) == BlockOf(s, x)
  {
    forall i, x | 0 <= i < |t.tiers| ensures Lives(t, i, x) {
      assert Lives(s, i, x);
    }
    forall x | x in t.home ensures Housed(t, x) {
      assert Housed(s, x);
    }
  }

  // ---------- Creating a block ----------

  datatype Outcome = Outcome(state: State, status: Status, data: seq<byte>)

  /** The first, hence fastest, tier with room. */
  function Roomy(tiers: seq<Tier>, size: nat): (r: Option<nat>)
    ensures r.Some? ==> r.value < |tiers| && Available(tiers[r.value]) >= size
    ensures r.Some? ==> forall i | 0 <= i < r.value :: Available(tiers[i]) < size
    ensures r.None? ==> forall i | 0 <= i < |tiers| :: Available(tiers[i]) < size
  {
    if tiers == [] then None
    else if Available(tiers[0]) >= size then Some(0)
    else
      var rest := Roomy(tiers[1..], size);
      assert forall i | 0 < i < |tiers| :: tiers[i] == tiers[1..][i - 1];
      match rest case None => None case Some(i) => Some(i + 1)
  }

  predicate Sane(opts: Options) { opts.low >= 0.0 }

  /** The low watermark in bytes, rounded down. */
  function LowMark(t: Tier, opts: Options): (n: nat)
    requires Sane(opts)
  {
    var x := t.capacity as real * opts.low;
    assert x >= 0.0 && x.Floor >= 0;
    x.Floor
  }

  predicate AboveHigh(t: Tier, opts: Options)
  {
    t.capacity != 0 && t.used as real / t.capacity as real > opts.high
  }

  ghost function MaybeAutoEvict(s: State, opts: Options, kind: TierType): State
    requires Tracking(s.hist, s.mgr) && Sane(opts)
  {
    match TierIndex(s.tiers, kind)
    case None => s
    case Some(i) =>
      var t := s.tiers[i];
      if !AboveHigh(t, opts) || t.used <= LowMark(t, opts) then s
      else Evict(s, kind, t.used - LowMark(t, opts))
  }

  lemma AboveHighIs(t: Tier, opts: Options)
    requires 0 <= t.used <= t.capacity
    ensures AboveHigh(t, opts) <==> t.used as real > t.capacity as real * opts.high
  {
    if t.capacity > 0 { Quotient(t.used as real, t.capacity as real, opts.high); }
  }

  lemma Quotient(a: real, b: real, c: real)
    requires b > 0.0
    ensures a / b > c <==> a > b * c
  {
    var q := a / b;
    assert q * b == a;
    if q > c { Scaled(c, q, b); } else if q < c { Scaled(q, c, b); }
  }

  lemma Scaled(a: real, b: real, c: real)
    requires a < b && c > 0.0
    ensures a * c < b * c
  {
  }

  /** Rounding the low watermark down does not matter for whole bytes. */
  lemma LowMarkIs(t: Tier, opts: Options, n: int)
    requires Sane(opts)
    ensures n <= LowMark(t, opts) <==> n as real <= t.capacity as real * opts.low
  {
  }

  /** The block is allocated in its tier, but neither mapped nor tracked yet. */
  function Reserve(s: State, i: nat, id: BlockId, size: nat): State
    requires i < |s.tiers|
  {
    s.(tiers := s.tiers[i := Allocated(s.tiers[i], id, size)])
  }

  function Enter(s: State, i: nat, id: BlockId, size: nat): State
    requires i < |s.tiers|
  {
    var kind := s.tiers[i].kind;
    Reserve(s, i, id, size).(home := s.home[id := kind], meta := s.meta[id := Meta(size, kind, 0)],
                             mgr := ManagerInsert(s.mgr, id, size), hist := s.hist + [Insert(id)])
  }

  lemma EnterKeeps(s: State, i: nat, id: BlockId, size: nat)
    requires Inv(s) && i < |s.tiers| && id !in s.home && id != NO_BLOCK && Available(s.tiers[i]) >= size
    ensures var t := Enter(s, i, id, size);
            && Inv(t) && BytesOf(t, id) == Zeros(size) && BlockOf(t, id).capacity == size
            && (forall x | x in s.home :: x in t.home && t.home[x] == s.home[x] && BlockOf(t, x) == BlockOf(s, x))
  {
    hide ManagerInv, Tracking;
    var t := Enter(s, i, id, size);
    assert Lives(s, i, id);
    AllocatedKeeps(s.tiers[i], id, size);
    StructuredAfterEnter(s, i, id, size);
    ManagerInsertKeeps(s.hist, s.mgr, id, size);
    assert id in s.mgr.sizes ==> Sized(s, id);
    SameIndex(s.tiers, i, t.tiers[i], t.tiers[i].kind);
    OwnIndex(s, i);
    forall x | x in s.home ensures BlockOf(t, x) == BlockOf(s, x) {
      SameIndex(s.tiers, i, t.tiers[i], s.home[x]);
      Home(s, x);
    }
    forall x | x in t.mgr.sizes ensures Sized(t, x) {
      if x != id { assert Sized(s, x); }
    }
  }

  lemma StructuredAfterEnter(s: State, i: nat, id: BlockId, size: nat)
    requires Structured(s) && i < |s.tiers| && id !in s.home && id != NO_BLOCK && Available(s.tiers[i]) >= size
    ensures Structured(Enter(s, i, id, size))
  {
    var t := Enter(s, i, id, size);
    assert Lives(s, i, id);
    AllocatedKeeps(s.tiers[i], id, size);
    forall j, x | 0 <= j < |t.tiers| ensures Lives(t, j, x) {
      assert Lives(s, j, x);
    }
    OwnIndex(s, i);
    forall x | x in t.home ensures Housed(t, x) {
      SameIndex(s.tiers, i, t.tiers[i], t.home[x]);
      if x != id { assert Housed(s, x); }
    }
  }

  /** Allocating without mapping the block, as a failed metadata write leaves it, is a leak. */
  lemma ReserveLeaks(s: State, i: nat, id: BlockId, size: nat)
    requires Structured(s) && i < |s.tiers| && id !in s.tiers[i].blocks
    ensures !Structured(Reserve(s, i, id, size))
  {
    assert Lives(s, i, id);
    assert !Lives(Reserve(s, i, id, size), i, id);
  }

  /** Tiers of other kinds are unchanged, and homes only go missing. */
  ghost predicate OnlyKind(s: State, t: State, kind: TierType)
  {
    && |t.tiers| == |s.tiers|
    && (forall j | 0 <= j < |s.tiers| :: t.tiers[j].kind == s.tiers[j].kind && (s.tiers[j].kind != kind ==> t.tiers[j] == s.tiers[j]))
    && (forall x | x in t.home :: x in s.home && t.home[x] == s.home[x])
  }

  lemma {:induction false} EvictListOnlyKind(s: State, kind: TierType, victims: seq<BlockId>)
    ensures OnlyKind(s, EvictList(s, kind, victims), kind)
    decreases |victims|
  {
    if victims != [] { EvictListOnlyKind(EvictAt(s, kind, victims[0]), kind, victims[1..]); }
  }

  lemma EvictOnlyKind(s: State, kind: TierType, needed: nat)
    requires Tracking(s.hist, s.mgr)
    ensures OnlyKind(s, Evict(s, kind, needed), kind)
  {
    hide Fits, EvictionOrder, AfterEvictions, EvictList;
    var order := EvictionOrder(s.hist, s.mgr.policy);
    var k := Count(order, s.mgr.sizes, needed);
    var (g, m) := AfterEvictions(s.hist, s.mgr, k);
    EvictListOnlyKind(s.(mgr := m, hist := g), kind, order[..k]);
  }

  lemma AutoEvictOnlyKind(s: State, opts: Options, kind: TierType)
    requires Tracking(s.hist, s.mgr) && Sane(opts)
    ensures OnlyKind(s, MaybeAutoEvict(s, opts, kind), kind)
  {
    hide Tracking, Evict;
    match TierIndex(s.tiers, kind)
    case None =>
    case Some(i) =>
      var t := s.tiers[i];
      if AboveHigh(t, opts) && t.used > LowMark(t, opts) { EvictOnlyKind(s, kind, t.used - LowMark(t, opts)); }
  }

  lemma EnterTracks(s: State, i: nat, id: BlockId, size: nat)
    requires Inv(s) && i < |s.tiers| && id != NO_BLOCK
    ensures Tracking(Enter(s, i, id, size).hist, Enter(s, i, id, size).mgr)
  {
    hide Structured, ManagerInv, Tracking;
    ManagerInsertKeeps(s.hist, s.mgr, id, size);
  }

  /** Entering a block that lives in another tier leaves two copies, one of them unreachable for good. */
  lemma EnterTwiceLeaks(s: State, opts: Options, i: nat, id: BlockId, size: nat)
    requires Inv(s) && Sane(opts) && i < |s.tiers| && id in s.home && s.home[id] != s.tiers[i].kind && id != NO_BLOCK
    ensures Tracking(Enter(s, i, id, size).hist, Enter(s, i, id, size).mgr)
    ensures !Structured(MaybeAutoEvict(Enter(s, i, id, size), opts, s.tiers[i].kind))
  {
    hide ManagerInv, Tracking, MaybeAutoEvict, TierInv;
    Home(s, id);
    EnterTracks(s, i, id, size);
    var j, kind := TierIndex(s.tiers, s.home[id]).value, s.tiers[i].kind;
    var t := Enter(s, i, id, size);
    var u := MaybeAutoEvict(t, opts, kind);
    AutoEvictOnlyKind(t, opts, kind);
    assert u.tiers[j] == s.tiers[j];
    assert !Lives(u, j, id);
  }

  ghost function CreateIn(s: State, opts: Options, i: nat, id: BlockId, size: nat, metaOk: bool): Outcome
    requires Inv(s) && Sane(opts) && i < |s.tiers| && id != NO_BLOCK
  {
    if id in s.tiers[i].blocks then Outcome(s, AlreadyExists, [])
    else if !metaOk then Outcome(Reserve(s, i, id, size), IOError, [])
    else
      EnterTracks(s, i, id, size);
      Outcome(MaybeAutoEvict(Enter(s, i, id, size), opts, s.tiers[i].kind), Ok, [])
  }

  /** Creates a block in the fastest tier with room, or after evicting from the fastest tier. */
  ghost function CreateBlock(s: State, opts: Options, id: BlockId, size: nat, metaOk: bool): Outcome
    requires Inv(s) && Sane(opts) && id != NO_BLOCK
  {
    match Roomy(s.tiers, size)
    case Some(i) => CreateIn(s, opts, i, id, size, metaOk)
    case None =>
      EvictKeeps(s, s.tiers[0].kind, size);
      var e := Evict(s, s.tiers[0].kind, size);
      if Available(e.tiers[0]) < size then Outcome(e, ResourceExhausted, [])
      else CreateIn(e, opts, 0, id, size, metaOk)
  }

  lemma AutoEvictKeeps(s: State, opts: Options, kind: TierType)
    requires Inv(s) && Sane(opts)
    ensures Inv(MaybeAutoEvict(s, opts, kind)) && Shrunk(s, MaybeAutoEvict(s, opts, kind))
  {
    hide ManagerInv, Tracking, Evict;
    match TierIndex(s.tiers, kind)
    case None =>
    case Some(i) =>
      var t := s.tiers[i];
      if AboveHigh(t, opts) && t.used > LowMark(t, opts) {
        EvictKeeps(s, kind, t.used - LowMark(t, opts));
      }
  }

  /** Putting a block in this tier does no harm: it is there already, or it is nowhere and its metadata gets stored. */
  predicate Harmless(s: State, i: nat, id: BlockId, metaOk: bool)
    requires i < |s.tiers|
  {
    if id in s.home then s.home[id] == s.tiers[i].kind else metaOk
  }

  /** Nothing can be allocated, or the block goes where it does no harm. */
  ghost predicate MayCreate(s: State, id: BlockId, size: nat, metaOk: bool)
    requires Inv(s)
  {
    match Roomy(s.tiers, size)
    case Some(i) => Harmless(s, i, id, metaOk)
    case None =>
      EvictKeeps(s, s.tiers[0].kind, size);
      var e := Evict(s, s.tiers[0].kind, size);
      Available(e.tiers[0]) < size || Harmless(e, 0, id, metaOk)
  }

  /**
   * Creating a block keeps the invariant exactly when nothing can be allocated, the block is in the
   * chosen tier already, or it is stored nowhere and its metadata write succeeds.
   */
  lemma CreateKeeps(s: State, opts: Options, id: BlockId, size: nat, metaOk: bool)
    requires Inv(s) && Sane(opts) && id != NO_BLOCK
    ensures var o := CreateBlock(s, opts, id, size, metaOk);
            && (Inv(o.state) <==> MayCreate(s, id, size, metaOk))
            && (id !in s.home ==> o.status != AlreadyExists && (Inv(o.state) <==> o.status != IOError))
            && (Inv(o.state) ==>
                  && (forall x | x in o.state.home && x != id :: Untouched(s, o.state, x))
                  && (id in o.state.home ==> if o.status == Ok then BytesOf(o.state, id) == Zeros(size) else Untouched(s, o.state, id)))
  {
    hide ManagerInv, Tracking, CreateIn, Evict, Structured;
    TiersExist(s);
    match Roomy(s.tiers, size)
    case Some(i) => CreateInKeeps(s, opts, i, id, size, metaOk);
    case None =>
      var e := Evict(s, s.tiers[0].kind, size);
      EvictKeeps(s, s.tiers[0].kind, size);
      if Available(e.tiers[0]) >= size { CreateInKeeps(e, opts, 0, id, size, metaOk); }
  }

  /** For an absent block the exact condition is that its metadata is stored or that there is no room even after evicting. */
  lemma CreateAbsentKeeps(s: State, opts: Options, id: BlockId, size: nat, metaOk: bool)
    requires Inv(s) && Sane(opts) && id !in s.home && id != NO_BLOCK
    ensures s.tiers != []
    ensures var e := Evict(s, s.tiers[0].kind, size);
            && e.tiers != []
            && (Inv(CreateBlock(s, opts, id, size, metaOk).state) <==>
                metaOk || (Roomy(s.tiers, size).None? && Available(e.tiers[0]) < size))
  {
    hide ManagerInv, Tracking, CreateBlock, Evict, Structured, Roomy;
    TiersExist(s);
    CreateKeeps(s, opts, id, size, metaOk);
    EvictKeeps(s, s.tiers[0].kind, size);
    TiersExist(Evict(s, s.tiers[0].kind, size));
  }

  /** Where a creation ends up: after evicting from the fastest tier if no tier has room, in the first tier with room or else the fastest. */
  ghost function Chosen(s: State, size: nat): (c: (State, nat))
    requires Inv(s)
    ensures Inv(c.0) && c.1 < |c.0.tiers|
  {
    match Roomy(s.tiers, size)
    case Some(i) => (s, i)
    case None =>
      EvictKeeps(s, s.tiers[0].kind, size);
      (Evict(s, s.tiers[0].kind, size), 0)
  }

  /** What a creation answers: no room comes first, then a block that is there already, then a failed metadata write. */
  lemma CreateAnswers(s: State, opts: Options, id: BlockId, size: nat, metaOk: bool)
    requires Inv(s) && Sane(opts) && id != NO_BLOCK
    ensures var status, e, i := CreateBlock(s, opts, id, size, metaOk).status, Chosen(s, size).0, Chosen(s, size).1;
            var room, there := e.tiers[i].used + size <= e.tiers[i].capacity, id in e.home && e.home[id] == e.tiers[i].kind;
            && (status == ResourceExhausted <==> !room) && (status == AlreadyExists <==> room && there)
            && (status == IOError <==> room && !there && !metaOk) && (status == Ok <==> room && !there && metaOk)
  {
    hide ManagerInv, Tracking, Evict, Structured, CreateIn;
    TiersExist(s);
    match Roomy(s.tiers, size)
    case Some(i) => CreateInKeeps(s, opts, i, id, size, metaOk);
    case None =>
      var e := Evict(s, s.tiers[0].kind, size);
      EvictKeeps(s, s.tiers[0].kind, size);
      if Available(e.tiers[0]) >= size { CreateInKeeps(e, opts, 0, id, size, metaOk); }
  }

  /** A creation that succeeds enters the block and then checks the watermarks of the tier it went to. */
  lemma CreateThenChecks(s: State, opts: Options, id: BlockId, size: nat, metaOk: bool)
    requires Inv(s) && Sane(opts) && id !in s.home && id != NO_BLOCK && CreateBlock(s, opts, id, size, metaOk).status == Ok
    ensures var e, i := Chosen(s, size).0, Chosen(s, size).1;
            Inv(Enter(e, i, id, size)) && CreateBlock(s, opts, id, size, metaOk).state == MaybeAutoEvict(Enter(e, i, id, size), opts, e.tiers[i].kind)
  {
    hide ManagerInv, Tracking, Evict, Structured, Enter, MaybeAutoEvict;
    CreateAnswers(s, opts, id, size, metaOk);
    TiersExist(s);
    EvictKeeps(s, s.tiers[0].kind, size);
    var e, i := Chosen(s, size).0, Chosen(s, size).1;
    NotThere(e, i, id);
    EnterKeeps(e, i, id, size);
  }

  /** A metadata write that fails makes no difference where it is never tried. */
  lemma CreateWithoutMeta(s: State, opts: Options, id: BlockId, size: nat)
    requires Inv(s) && Sane(opts) && id !in s.home && id != NO_BLOCK && MayCreate(s, id, size, false)
    ensures CreateBlock(s, opts, id, size, false) == CreateBlock(s, opts, id, size, true)
  {
    hide ManagerInv, Tracking, Evict, Structured;
    TiersExist(s);
    EvictKeeps(s, s.tiers[0].kind, size);
  }

  /** Homes only go missing, and only in one tier. */
  ghost predicate OnlyFrom(before: map<BlockId, TierType>, after: map<BlockId, TierType>, kind: TierType)
  {
    && (forall x | x in after :: x in before && after[x] == before[x])
    && (forall x | x in before && x !in after :: before[x] == kind)
  }

  lemma OnlyFromChains(a: map<BlockId, TierType>, b: map<BlockId, TierType>, c: map<BlockId, TierType>, kind: TierType, id: BlockId)
    requires OnlyFrom(a, b, kind) && OnlyFrom(b[id := kind], c, kind)
    ensures OnlyFrom(a[id := kind], c, kind)
  {
  }

  lemma EvictOnlyFrom(s: State, kind: TierType, needed: nat)
    requires Inv(s)
    ensures var t := Evict(s, kind, needed);
            OnlyFrom(s.home, t.home, kind) && Inv(t) && |t.tiers| == |s.tiers| && FirstKept(s, t)
  {
    hide Fits, Evict, EvictionOrder;
    EvictKeeps(s, kind, needed);
  }

  ghost predicate FirstKept(s: State, t: State)
  {
    s.tiers != [] && t.tiers != [] && t.tiers[0].kind == s.tiers[0].kind
  }

  lemma AutoEvictOnlyFrom(s: State, opts: Options, kind: TierType)
    requires Inv(s) && Sane(opts)
    ensures OnlyFrom(s.home, MaybeAutoEvict(s, opts, kind).home, kind)
  {
    hide ManagerInv, Tracking, Evict, Structured;
    match TierIndex(s.tiers, kind)
    case None =>
    case Some(i) =>
      var t := s.tiers[i];
      if AboveHigh(t, opts) && t.used > LowMark(t, opts) { EvictOnlyFrom(s, kind, t.used - LowMark(t, opts)); }
  }

  lemma CreateInPlaces(s: State, opts: Options, i: nat, id: BlockId, size: nat)
    requires Inv(s) && Sane(opts) && i < |s.tiers| && id !in s.home && id != NO_BLOCK && Available(s.tiers[i]) >= size
    ensures var o := CreateIn(s, opts, i, id, size, true);
            o.status == Ok && OnlyFrom(s.home[id := s.tiers[i].kind], o.state.home, s.tiers[i].kind)
  {
    hide ManagerInv, Tracking, Structured, MaybeAutoEvict, OnlyFrom;
    NotThere(s, i, id);
    EnterKeeps(s, i, id, size);
    AutoEvictOnlyFrom(Enter(s, i, id, size), opts, s.tiers[i].kind);
  }

  /** A new block goes to the fastest tier with room, or else to the fastest of all; whatever gives way lived in that tier. */
  lemma CreatePlaces(s: State, opts: Options, id: BlockId, size: nat)
    requires Inv(s) && Sane(opts) && id !in s.home && id != NO_BLOCK
    ensures s.tiers != []
    ensures var o, room := CreateBlock(s, opts, id, size, true), Roomy(s.tiers, size);
            var kind := s.tiers[if room.Some? then room.value else 0].kind;
            && OnlyFrom(if o.status == Ok then s.home[id := kind] else s.home, o.state.home, kind)
            && (room.Some? ==> o.status == Ok)
  {
    hide ManagerInv, Tracking, Structured, CreateIn, Evict, Roomy;
    TiersExist(s);
    var room, first := Roomy(s.tiers, size), s.tiers[0].kind;
    if room.Some? {
      CreateInPlaces(s, opts, room.value, id, size);
    } else {
      var e := Evict(s, first, size);
      EvictOnlyFrom(s, first, size);
      if Available(e.tiers[0]) >= size {
        CreateInPlaces(e, opts, 0, id, size);
        OnlyFromChains(s.home, e.home, CreateIn(e, opts, 0, id, size, true).state.home, first, id);
      }
    }
  }

  lemma NotThere(s: State, i: nat, id: BlockId)
    requires Structured(s) && i < |s.tiers| && id !in s.home
    ensures id !in s.tiers[i].blocks
  {
    assert Lives(s, i, id);
  }

  lemma TiersExist(s: State)
    requires Structured(s)
    ensures s.tiers != []
  {
  }

  lemma CreateInKeeps(s: State, opts: Options, i: nat, id: BlockId, size: nat, metaOk: bool)
    requires Inv(s) && Sane(opts) && i < |s.tiers| && id != NO_BLOCK && Available(s.tiers[i]) >= size
    ensures var o := CreateIn(s, opts, i, id, size, metaOk);
            && (Inv(o.state) <==> Harmless(s, i, id, metaOk))
            && o.status == (if id in s.home && s.home[id] == s.tiers[i].kind then AlreadyExists else if metaOk then Ok else IOError)
            && (o.status == AlreadyExists ==> o.state == s)
            && (Inv(o.state) ==>
                  && (forall x | x in o.state.home && x != id :: x in s.home && BlockOf(o.state, x) == BlockOf(s, x))
                  && (id in o.state.home && o.status == Ok ==> BytesOf(o.state, id) == Zeros(size)))
  {
    hide ManagerInv, Tracking, MaybeAutoEvict, TierInv, Housed, Allocated, ManagerInsert;
    assert Lives(s, i, id);
    if id !in s.tiers[i].blocks {
      if !metaOk {
        ReserveLeaks(s, i, id, size);
      } else if id in s.home {
        EnterTwiceLeaks(s, opts, i, id, size);
      } else {
        EnterKeeps(s, i, id, size);
        AutoEvictKeeps(Enter(s, i, id, size), opts, s.tiers[i].kind);
      }
    }
  }

  // ---------- One tier: the bounds ----------

  /** With one tier the cache manager's total is the tier's used bytes. */
  lemma ExactBooks(s: State)
    requires Inv(s) && Exact(s)
    ensures s.mgr.sizes == Caps(s.tiers[0].blocks) && s.mgr.total == s.tiers[0].used
    ensures s.tiers[0].blocks.Keys == s.home.Keys
    ensures forall id | id in s.home :: s.home[id] == s.tiers[0].kind
  {
    assert TierInv(s.tiers[0]);
    forall id ensures id in s.home <==> id in s.tiers[0].blocks {
      assert Lives(s, 0, id);
      if id in s.home { assert Housed(s, id); }
    }
    forall id | id in s.home ensures s.mgr.sizes[id] == s.tiers[0].blocks[id].capacity && s.home[id] == s.tiers[0].kind {
      assert Sized(s, id) && Housed(s, id);
    }
  }

  /** The whole eviction order adds up to the manager's total. */
  lemma OrderTotal(h: History, m: Manager)
    requires ManagerInv(h, m)
    ensures SumOver(m.sizes, EvictionOrder(h, m.policy)) == m.total
    ensures Elements(EvictionOrder(h, m.policy)) == m.sizes.Keys
  {
    var order := EvictionOrder(h, m.policy);
    EvictionOrderSorted(h, m.policy);
    EvictionsKeep(h, m, |order|);
    EvictionsAccount(h, m, |order|);
    assert order[..|order|] == order;
    assert m.sizes - Elements(order) == map[];
  }

  /** Evicting from the only tier frees what was asked for, or everything. */
  lemma EvictSingle(s: State, needed: nat)
    requires Inv(s) && Exact(s)
    ensures var t := Evict(s, s.tiers[0].kind, needed);
            && Inv(t) && Exact(t) && Shrunk(s, t)
            && (t.tiers[0].used <= s.tiers[0].used - needed || (t.tiers[0].used == 0 && t.home == map[]))
  {
    var order := EvictionOrder(s.hist, s.mgr.policy);
    var k := Count(order, s.mgr.sizes, needed);
    var t := Evict(s, s.tiers[0].kind, needed);
    EvictKeeps(s, s.tiers[0].kind, needed);
    CountIsLeast(order, s.mgr.sizes, needed);
    ExactBooks(s);
    OrderTotal(s.hist, s.mgr);
    assert t.home.Keys == t.mgr.sizes.Keys;
    ExactBooks(t);
    if k == |order| { assert order[..k] == order; }
  }

  lemma AutoEvictSingle(s: State, opts: Options)
    requires Inv(s) && Exact(s) && Sane(opts)
    ensures var t := MaybeAutoEvict(s, opts, s.tiers[0].kind);
            && Inv(t) && Exact(t) && Shrunk(s, t)
            && (!AboveHigh(t.tiers[0], opts) || t.tiers[0].used <= LowMark(t.tiers[0], opts))
  {
    hide ManagerInv, Tracking, Evict;
    var tier := s.tiers[0];
    if AboveHigh(tier, opts) && tier.used > LowMark(tier, opts) {
      EvictSingle(s, tier.used - LowMark(tier, opts));
    }
  }

  lemma EnterSingle(s: State, id: BlockId, size: nat)
    requires Inv(s) && Exact(s) && id !in s.home && id != NO_BLOCK && Available(s.tiers[0]) >= size
    ensures var t := Enter(s, 0, id, size);
            Inv(t) && Exact(t) && t.tiers[0].used == s.tiers[0].used + size && t.tiers[0].capacity == s.tiers[0].capacity
  {
    EnterKeeps(s, 0, id, size);
  }

  /** What the used bytes of a tier look like. */
  lemma UsedBounds(s: State, i: nat)
    requires Structured(s) && i < |s.tiers|
    ensures 0 <= s.tiers[i].used <= s.tiers[i].capacity
  {
    assert TierInv(s.tiers[i]);
  }

  /**
   * The watermark check does nothing unless the tier is above both marks.  Otherwise it evicts for
   * the least number of bytes without which the tier would not be above the low mark.
   */
  lemma AutoEvictAsks(s: State, opts: Options, i: nat)
    requires Inv(s) && Sane(opts) && i < |s.tiers|
    ensures var t, u := s.tiers[i], MaybeAutoEvict(s, opts, s.tiers[i].kind);
            var high, low := t.capacity as real * opts.high, t.capacity as real * opts.low;
            if t.used as real <= high || t.used as real <= low then u == s
            else exists n: nat :: u == Evict(s, t.kind, n) && (t.used - n) as real <= low < (t.used - n + 1) as real
  {
    hide ManagerInv, Tracking, Evict, LowMark, AboveHigh;
    var t := s.tiers[i];
    UsedBounds(s, i);
    OwnIndex(s, i);
    AboveHighIs(t, opts);
    LowMarkIs(t, opts, t.used);
    if AboveHigh(t, opts) && t.used > LowMark(t, opts) {
      var n: nat := t.used - LowMark(t, opts);
      LowMarkIs(t, opts, t.used - n);
      LowMarkIs(t, opts, t.used - n + 1);
      assert MaybeAutoEvict(s, opts, t.kind) == Evict(s, t.kind, n);
    }
  }

  /**
   * However many tiers there are: above both marks the check takes off the books at least the bytes
   * by which the tier exceeds the low mark, or everything, and no block lives on in that tier that
   * was taken off.
   */
  lemma AutoEvictFrees(s: State, opts: Options, i: nat)
    requires Inv(s) && Sane(opts) && i < |s.tiers|
    ensures var t, u := s.tiers[i], MaybeAutoEvict(s, opts, s.tiers[i].kind);
            var high, low := t.capacity as real * opts.high, t.capacity as real * opts.low;
            if t.used as real <= high || t.used as real <= low then u == s
            else
              && ((s.mgr.total - u.mgr.total) as real >= t.used as real - low || u.mgr.sizes == map[])
              && forall x | x in s.mgr.sizes && x !in u.mgr.sizes && x in u.home :: u.home[x] != t.kind
  {
    hide ManagerInv, Fits, Structured, Evict, EvictionOrder, MaybeAutoEvict;
    AutoEvictAsks(s, opts, i);
    var t := s.tiers[i];
    var low := t.capacity as real * opts.low;
    if t.used as real > t.capacity as real * opts.high && t.used as real > low {
      var n: nat :| MaybeAutoEvict(s, opts, t.kind) == Evict(s, t.kind, n) && (t.used - n) as real <= low < (t.used - n + 1) as real;
      EvictFrees(s, t.kind, n);
    }
  }

  lemma EvictFrees(s: State, kind: TierType, needed: nat)
    requires Inv(s)
    ensures var t := Evict(s, kind, needed);
            && (s.mgr.total - t.mgr.total >= needed || t.mgr.sizes == map[])
            && forall x | x in s.mgr.sizes && x !in t.mgr.sizes && x in t.home :: t.home[x] != kind
  {
    hide Fits, Structured, Evict, EvictionOrder;
    var order := EvictionOrder(s.hist, s.mgr.policy);
    var k, t := Count(order, s.mgr.sizes, needed), Evict(s, kind, needed);
    EvictKeeps(s, kind, needed);
    CountIsLeast(order, s.mgr.sizes, needed);
    OrderTotal(s.hist, s.mgr);
    if k == |order| { assert order[..k] == order; }
  }

  /** What one tier holds after the first `k` blocks of the order were evicted from it. */
  lemma EvictTakesPrefix(s: State, needed: nat)
    requires Inv(s) && Exact(s)
    ensures var order := EvictionOrder(s.hist, s.mgr.policy);
            var k, t := Count(order, s.mgr.sizes, needed), Evict(s, s.tiers[0].kind, needed);
            && Inv(t) && Exact(t)
            && t.home.Keys == s.home.Keys - Elements(order[..k])
            && t.tiers[0].used == s.tiers[0].used - SumOver(s.mgr.sizes, order[..k])
            && t.tiers[0].capacity == s.tiers[0].capacity
  {
    hide Fits, EvictionOrder, Evict, Lives, Housed;
    var order := EvictionOrder(s.hist, s.mgr.policy);
    var k, t := Count(order, s.mgr.sizes, needed), Evict(s, s.tiers[0].kind, needed);
    EvictKeeps(s, s.tiers[0].kind, needed);
    EvictSingle(s, needed);
    ExactBooks(s);
    ExactBooks(t);
    assert t.home.Keys == t.mgr.sizes.Keys == s.mgr.sizes.Keys - Elements(order[..k]);
  }

  /** Evicting from one tier for `n` bytes more than `floor` leaves no more than that, and without the last victim more. */
  lemma EvictDownTo(s: State, n: nat, floor: nat)
    requires Inv(s) && Exact(s) && n > 0 && s.tiers[0].used == floor + n
    ensures var t, order := Evict(s, s.tiers[0].kind, n), EvictionOrder(s.hist, s.mgr.policy);
            && |t.tiers| == 1 && t.tiers[0].used <= floor
            && exists k {:trigger order[..k]} | 0 < k <= |order| ::
                 && t.home.Keys == s.home.Keys - Elements(order[..k])
                 && t.tiers[0].used + SizeOf(s.mgr.sizes, order[k - 1]) > floor
  {
    hide Structured, Evict, EvictionOrder, Fits;
    var order := EvictionOrder(s.hist, s.mgr.policy);
    var k, t := Count(order, s.mgr.sizes, n), Evict(s, s.tiers[0].kind, n);
    EvictTakesPrefix(s, n);
    EvictSingle(s, n);
    CountIsLeast(order, s.mgr.sizes, n);
    assert order[..0] == [];
    assert k > 0;
    PrefixSum(s.mgr.sizes, order, k);
    assert SumOver(s.mgr.sizes, order[..k - 1]) < n;
  }

  lemma MarksAre(s: State, opts: Options)
    requires Inv(s) && Exact(s) && Sane(opts)
    ensures var t := s.tiers[0];
            && (AboveHigh(t, opts) <==> t.used as real > t.capacity as real * opts.high)
            && (t.used > LowMark(t, opts) <==> t.used as real > t.capacity as real * opts.low)
  {
    hide ManagerInv, Tracking, Structured, AboveHigh, LowMark;
    UsedBounds(s, 0);
    AboveHighIs(s.tiers[0], opts);
    LowMarkIs(s.tiers[0], opts, s.tiers[0].used);
  }

  /** The blocks that went are the front of the order, and before the last of them there was more than the floor. */
  ghost predicate DownTo(s: State, t: State, order: seq<BlockId>, k: nat, before: int)
  {
    0 < k <= |order| && t.home.Keys == s.home.Keys - Elements(order[..k]) && |t.tiers| == 1
    && before == t.tiers[0].used + SizeOf(s.mgr.sizes, order[k - 1])
  }

  lemma AutoEvictDownTo(s: State, opts: Options) returns (k: nat, before: int)
    requires Inv(s) && Exact(s) && Sane(opts) && AboveHigh(s.tiers[0], opts) && s.tiers[0].used > LowMark(s.tiers[0], opts)
    ensures var t, order := MaybeAutoEvict(s, opts, s.tiers[0].kind), EvictionOrder(s.hist, s.mgr.policy);
            DownTo(s, t, order, k, before) && t.tiers[0].used <= LowMark(s.tiers[0], opts) < before
  {
    hide ManagerInv, Fits, Structured, Evict, EvictionOrder, LowMark, AboveHigh, MaybeAutoEvict, SizeOf;
    var tier, order := s.tiers[0], EvictionOrder(s.hist, s.mgr.policy);
    var floor := LowMark(tier, opts);
    CheckOnOnlyTier(s, opts);
    EvictDownTo(s, tier.used - floor, floor);
    var t := Evict(s, tier.kind, tier.used - floor);
    k :| 0 < k <= |order| && t.home.Keys == s.home.Keys - Elements(order[..k]) && t.tiers[0].used + SizeOf(s.mgr.sizes, order[k - 1]) > floor;
    before := t.tiers[0].used + SizeOf(s.mgr.sizes, order[k - 1]);
  }

  /**
   * One tier above both marks: the check evicts from the front of the order until the tier is not
   * above the low mark, and without the last victim it would still be above it.
   */
  lemma AutoEvictLeast(s: State, opts: Options) returns (k: nat, before: int)
    requires Inv(s) && Exact(s) && Sane(opts)
    requires s.tiers[0].used as real > s.tiers[0].capacity as real * opts.high
    requires s.tiers[0].used as real > s.tiers[0].capacity as real * opts.low
    ensures var t, order := MaybeAutoEvict(s, opts, s.tiers[0].kind), EvictionOrder(s.hist, s.mgr.policy);
            && DownTo(s, t, order, k, before)
            && t.tiers[0].used as real <= s.tiers[0].capacity as real * opts.low < before as real
  {
    hide ManagerInv, Fits, Structured, EvictionOrder, LowMark, AboveHigh, MaybeAutoEvict, DownTo;
    MarksAre(s, opts);
    k, before := AutoEvictDownTo(s, opts);
    DownToOneTier(s, MaybeAutoEvict(s, opts, s.tiers[0].kind), EvictionOrder(s.hist, s.mgr.policy), k, before);
    LowMarkIs(s.tiers[0], opts, MaybeAutoEvict(s, opts, s.tiers[0].kind).tiers[0].used);
    LowMarkIs(s.tiers[0], opts, before);
  }

  lemma DownToOneTier(s: State, t: State, order: seq<BlockId>, k: nat, before: int)
    requires DownTo(s, t, order, k, before)
    ensures |t.tiers| == 1
  {
  }

  lemma PrefixSum(sizes: map<BlockId, nat>, order: seq<BlockId>, k: nat)
    requires 0 < k <= |order|
    ensures SumOver(sizes, order[..k]) == SumOver(sizes, order[..k - 1]) + SizeOf(sizes, order[k - 1])
  {
    assert order[..k] == order[..k - 1] + [order[k - 1]];
    SumOverSnoc(sizes, order[..k - 1], order[k - 1]);
  }

  /** The state in which a new block was entered, before the watermark check. */
  ghost function Entered(s: State, id: BlockId, size: nat): (t: State)
    requires Inv(s)
    ensures |t.tiers| > 0
  {
    EvictKeeps(s, s.tiers[0].kind, size);
    Enter(if Available(s.tiers[0]) >= size then s else Evict(s, s.tiers[0].kind, size), 0, id, size)
  }

  lemma CreateChecked(s: State, opts: Options, id: BlockId, size: nat)
    requires Inv(s) && Exact(s) && Sane(opts) && id !in s.home && id != NO_BLOCK
    ensures var o := CreateBlock(s, opts, id, size, true);
            && Inv(o.state) && Exact(o.state)
            && (o.status == Ok <==> size <= s.tiers[0].capacity)
            && (o.status != Ok ==> o.status == ResourceExhausted && o.state.home == map[])
            && (o.status == Ok ==>
                  && Inv(Entered(s, id, size)) && Exact(Entered(s, id, size))
                  && o.state == MaybeAutoEvict(Entered(s, id, size), opts, s.tiers[0].kind)
                  && o.state.tiers[0].capacity == s.tiers[0].capacity
                  && (!AboveHigh(o.state.tiers[0], opts) || o.state.tiers[0].used <= LowMark(o.state.tiers[0], opts)))
  {
    hide ManagerInv, Tracking, Lives, Housed, LowMark, AboveHigh;
    ExactBooks(s);
    var room := Roomy(s.tiers, size);
    assert room.Some? ==> room.value == 0;
    var e := if room.Some? then s else Evict(s, s.tiers[0].kind, size);
    EvictSingle(s, size);
    assert Inv(e) && Exact(e) && e.tiers[0].capacity == s.tiers[0].capacity && e.tiers[0].kind == s.tiers[0].kind;
    assert TierInv(s.tiers[0]);
    assert TierInv(e.tiers[0]);
    if Available(e.tiers[0]) >= size {
      assert id !in e.home;
      NotThere(e, 0, id);
      EnterSingle(e, id, size);
      AutoEvictSingle(Enter(e, 0, id, size), opts);
    }
  }

  /**
   * One tier: creating an absent block succeeds exactly when it fits the tier's capacity.  A refused
   * block empties the tier.  After a success the used bytes are not above the high watermark, or not
   * above the low one.
   */
  lemma CreateSingle(s: State, opts: Options, id: BlockId, size: nat)
    requires Inv(s) && Exact(s) && Sane(opts) && id !in s.home && id != NO_BLOCK
    ensures var o := CreateBlock(s, opts, id, size, true);
            && Inv(o.state) && Exact(o.state)
            && (o.status == Ok <==> size <= s.tiers[0].capacity)
            && (o.status != Ok ==> o.status == ResourceExhausted && o.state.home == map[])
            && var cap, used := s.tiers[0].capacity as real, o.state.tiers[0].used as real;
               o.status == Ok ==> used <= cap * opts.high || used <= cap * opts.low
  {
    hide ManagerInv, Tracking, Structured, LowMark, AboveHigh, CreateBlock, Entered, Evict, MaybeAutoEvict, TierInv;
    CreateChecked(s, opts, id, size);
    var o := CreateBlock(s, opts, id, size, true);
    var t := o.state.tiers[0];
    UsedBounds(o.state, 0);
    AboveHighIs(t, opts);
    LowMarkIs(t, opts, t.used);
  }

  lemma {:induction false} SumOverPrefix(sizes: map<BlockId, nat>, ids: seq<BlockId>, k: nat)
    requires k <= |ids|
    ensures SumOver(sizes, ids[..k]) <= SumOver(sizes, ids)
    decreases |ids|
  {
    if k > 0 {
      assert ids[..k][1..] == ids[1..][..k - 1];
      SumOverPrefix(sizes, ids[1..], k - 1);
    }
  }

  /** The last block of the order is taken exactly when all the others together do not free enough. */
  lemma LastIsTaken(order: seq<BlockId>, last: BlockId, sizes: map<BlockId, nat>, needed: nat)
    ensures Count(order + [last], sizes, needed) == |order| + 1 <==> SumOver(sizes, order) < needed
  {
    var all := order + [last];
    var k := Count(all, sizes, needed);
    CountIsLeast(all, sizes, needed);
    assert all[..|order|] == order;
    if k <= |order| {
      assert all[..k] == order[..k];
      SumOverPrefix(sizes, order, k);
    }
  }

  ghost predicate NewestIs(b: State, others: seq<BlockId>, id: BlockId)
  {
    Inv(b) && Exact(b) && b.mgr.policy == LruPolicy(others + [id]) && id !in others
  }

  lemma NewestAccounted(b: State, others: seq<BlockId>, id: BlockId)
    requires NewestIs(b, others, id)
    ensures id in b.mgr.sizes && SumOver(b.mgr.sizes, others) == b.tiers[0].used - b.mgr.sizes[id]
    ensures id in b.home && b.home[id] == b.tiers[0].kind
  {
    ExactBooks(b);
    LruOrder(b.hist, b.mgr.policy);
    OrderTotal(b.hist, b.mgr);
    SumOverSnoc(b.mgr.sizes, others, id);
    assert id in others + [id];
    assert id in Elements(others + [id]);
  }

  lemma NewestEvicted(b: State, others: seq<BlockId>, id: BlockId, needed: nat)
    requires NewestIs(b, others, id)
    ensures id in Evict(b, b.tiers[0].kind, needed).home <==> SumOver(b.mgr.sizes, others) >= needed
  {
    NewestAccounted(b, others, id);
    EvictKeeps(b, b.tiers[0].kind, needed);
    LruOrder(b.hist, b.mgr.policy);
    LastIsTaken(others, id, b.mgr.sizes, needed);
    LastInPrefix(others, id, Count(others + [id], b.mgr.sizes, needed));
  }

  lemma LastInPrefix(others: seq<BlockId>, id: BlockId, k: nat)
    requires id !in others && k <= |others| + 1
    ensures id in (others + [id])[..k] <==> k == |others| + 1
  {
    var all := others + [id];
    if k <= |others| {
      assert all[..k] == others[..k];
    } else {
      assert all[..k] == all && all[|others|] == id;
    }
  }

  lemma CheckOnOnlyTier(b: State, opts: Options)
    requires Inv(b) && Exact(b) && Sane(opts)
    ensures var t, low := b.tiers[0], LowMark(b.tiers[0], opts);
            MaybeAutoEvict(b, opts, t.kind) == if AboveHigh(t, opts) && t.used > low then Evict(b, t.kind, t.used - low) else b
  {
    OwnIndex(b, 0);
  }

  /** The watermark check on a tier whose most recent block is `id`. */
  lemma NewestSurvivesCheck(b: State, opts: Options, others: seq<BlockId>, id: BlockId)
    requires NewestIs(b, others, id) && Sane(opts)
    ensures id in b.mgr.sizes
    ensures id in MaybeAutoEvict(b, opts, b.tiers[0].kind).home <==>
            !AboveHigh(b.tiers[0], opts) || b.mgr.sizes[id] <= LowMark(b.tiers[0], opts)
  {
    var tier := b.tiers[0];
    var low := LowMark(tier, opts);
    NewestAccounted(b, others, id);
    CheckOnOnlyTier(b, opts);
    if AboveHigh(tier, opts) && tier.used > low {
      NewestEvicted(b, others, id, tier.used - low);
    }
  }

  lemma LruAfterEnter(e: State, id: BlockId, size: nat)
    requires Inv(e) && e.mgr.policy.LruPolicy? && id !in e.mgr.sizes
    ensures id !in e.mgr.policy.order
    ensures Enter(e, 0, id, size).mgr.policy == LruPolicy(e.mgr.policy.order + [id])
  {
    EvictionOrderSorted(e.hist, e.mgr.policy);
    LruOrder(e.hist, e.mgr.policy);
  }

  lemma NewestChecked(s: State, opts: Options, id: BlockId, size: nat)
    requires Inv(s) && Exact(s) && Sane(opts) && id !in s.home && id != NO_BLOCK
    requires s.mgr.policy.LruPolicy? && size <= s.tiers[0].capacity
    ensures var tier := Entered(s, id, size).tiers[0];
            id in CreateBlock(s, opts, id, size, true).state.home <==> !AboveHigh(tier, opts) || size <= LowMark(tier, opts)
  {
    hide LowMark, AboveHigh;
    CreateChecked(s, opts, id, size);
    EvictSingle(s, size);
    EvictStaysLru(s, s.tiers[0].kind, size);
    var e := if Available(s.tiers[0]) >= size then s else Evict(s, s.tiers[0].kind, size);
    LruAfterEnter(e, id, size);
    NewestSurvivesCheck(Entered(s, id, size), opts, e.mgr.policy.order, id);
  }

  /**
   * One LRU tier: a block that was just created survives its own watermark check exactly when the
   * tier is not above the high watermark or the block is no larger than the low one.
   */
  lemma NewBlockSurvives(s: State, opts: Options, id: BlockId, size: nat)
    requires Inv(s) && Exact(s) && Sane(opts) && id !in s.home && id != NO_BLOCK
    requires s.mgr.policy.LruPolicy? && size <= s.tiers[0].capacity
    ensures |Evict(s, s.tiers[0].kind, size).tiers| == 1
    ensures var tier := s.tiers[0];
            var fits := tier.used + size <= tier.capacity;
            var used, cap := size + (if fits then tier.used else Evict(s, tier.kind, size).tiers[0].used), tier.capacity as real;
            id in CreateBlock(s, opts, id, size, true).state.home <==> used as real <= cap * opts.high || size as real <= cap * opts.low
  {
    hide ManagerInv, Tracking, Structured, LowMark, AboveHigh, CreateBlock, Entered, Evict, MaybeAutoEvict, TierInv;
    NewestChecked(s, opts, id, size);
    CreateChecked(s, opts, id, size);
    EnteredUses(s, id, size);
    var t := Entered(s, id, size).tiers[0];
    UsedBounds(Entered(s, id, size), 0);
    AboveHighIs(t, opts);
    LowMarkIs(t, opts, size);
  }

  lemma EnteredUses(s: State, id: BlockId, size: nat)
    requires Inv(s) && Exact(s)
    ensures |Evict(s, s.tiers[0].kind, size).tiers| == 1
    ensures var tier, t := s.tiers[0], Entered(s, id, size).tiers[0];
            && t.capacity == tier.capacity
            && t.used == size + if tier.used + size <= tier.capacity then tier.used else Evict(s, tier.kind, size).tiers[0].used
  {
    hide ManagerInv, Tracking, Evict;
    EvictSingle(s, size);
  }

  lemma EvictStaysLru(s: State, kind: TierType, needed: nat)
    requires Inv(s) && s.mgr.policy.LruPolicy?
    ensures Evict(s, kind, needed).mgr.policy.LruPolicy?
  {
    var order := EvictionOrder(s.hist, s.mgr.policy);
    var k := Count(order, s.mgr.sizes, needed);
    LruOrder(s.hist, s.mgr.policy);
    EvictionsOnLru(s.hist, s.mgr, k);
    var (g, m) := AfterEvictions(s.hist, s.mgr, k);
    var mid := s.(mgr := m, hist := g);
    StructuredIgnoresManager(s, mid);
    EvictListKeeps(mid, kind, order[..k]);
  }

  // ---------- Reading, writing, removing ----------

  function Touched(s: State, id: BlockId): State
  {
    s.(mgr := ManagerAccess(s.mgr, id), hist := s.hist + [Touch(id)])
  }

  lemma TouchedKeeps(s: State, id: BlockId, meta: map<BlockId, Meta>)
    requires Inv(s) && meta.Keys == s.meta.Keys
    ensures var t := Touched(s, id).(meta := meta);
            Inv(t) && t.home == s.home && forall x | x in t.home :: BlockOf(t, x) == BlockOf(s, x)
  {
    var t := Touched(s, id).(meta := meta);
    ManagerAccessKeeps(s.hist, s.mgr, id);
    StructuredIgnoresManager(s, t);
    forall x | x in t.mgr.sizes ensures Sized(t, x) {
      assert Sized(s, x);
    }
  }

  function WriteAt(s: State, i: nat, id: BlockId, buf: seq<byte>, offset: nat): State
    requires i < |s.tiers| && id in s.tiers[i].blocks
  {
    s.(tiers := s.tiers[i := Written(s.tiers[i], id, offset, buf)])
  }

  lemma WriteAtStructured(s: State, i: nat, id: BlockId, buf: seq<byte>, offset: nat)
    requires Structured(s) && i < |s.tiers| && id in s.tiers[i].blocks
    ensures var t := WriteAt(s, i, id, buf, offset);
            Structured(t) && forall x | x in s.home :: TierIndex(t.tiers, s.home[x]) == TierIndex(s.tiers, s.home[x])
  {
    hide TierInv, FileWrite;
    var t := WriteAt(s, i, id, buf, offset);
    assert TierInv(s.tiers[i]);
    WrittenKeeps(s.tiers[i], id, offset, buf);
    forall j, x | 0 <= j < |t.tiers| ensures Lives(t, j, x) {
      assert Lives(s, j, x);
    }
    forall x | x in s.home ensures Housed(t, x) && TierIndex(t.tiers, s.home[x]) == TierIndex(s.tiers, s.home[x]) {
      assert Housed(s, x);
      SameIndex(s.tiers, i, t.tiers[i], s.home[x]);
    }
  }

  lemma WriteAtKeeps(s: State, i: nat, id: BlockId, buf: seq<byte>, offset: nat)
    requires Inv(s) && id in s.home && TierIndex(s.tiers, s.home[id]) == Some(i) && id in s.tiers[i].blocks
    ensures var t := WriteAt(s, i, id, buf, offset);
            && Inv(t) && t.home == s.home
            && BytesOf(t, id) == Patch(BytesOf(s, id), offset, buf)
            && (forall x | x in s.home && x != id :: BlockOf(t, x) == BlockOf(s, x))
  {
    hide ManagerInv, Tracking, Patch, FileWrite, Lives, Housed;
    var t := WriteAt(s, i, id, buf, offset);
    WriteAtStructured(s, i, id, buf, offset);
    Home(s, id);
    WrittenKeeps(s.tiers[i], id, offset, buf);
    forall x | x in s.home && x != id ensures BlockOf(t, x) == BlockOf(s, x) {
      Home(s, x);
    }
    forall x | x in t.mgr.sizes ensures Sized(t, x) {
      assert Sized(s, x);
    }
  }

  function WriteBlock(s: State, id: BlockId, buf: seq<byte>, offset: nat): Outcome
  {
    if id !in s.home || TierIndex(s.tiers, s.home[id]).None? then Outcome(s, NotFound, []) else
    var i := TierIndex(s.tiers, s.home[id]).value;
    if id !in s.tiers[i].blocks then Outcome(s, NotFound, [])
    else if !CanWrite(s.tiers[i], id, offset, buf) then Outcome(s, InvalidArgument, [])
    else Outcome(Touched(WriteAt(s, i, id, buf, offset), id), Ok, [])
  }

  /** A write either is refused or patches exactly the one block; it is refused exactly past a memory block's end. */
  lemma WriteKeeps(s: State, id: BlockId, buf: seq<byte>, offset: nat)
    requires Inv(s)
    ensures var o := WriteBlock(s, id, buf, offset);
            && Inv(o.state) && o.state.home == s.home
            && (o.status == NotFound <==> id !in s.home)
            && (o.status != Ok ==> o.state == s)
            && (o.status == InvalidArgument <==> id in s.home && s.home[id] == Memory && offset + |buf| > |BytesOf(s, id)|)
            && (o.status in {Ok, NotFound, InvalidArgument})
            && (o.status == Ok ==> BytesOf(o.state, id) == Patch(BytesOf(s, id), offset, buf))
            && (forall x | x in s.home && (x != id || o.status != Ok) :: BytesOf(o.state, x) == BytesOf(s, x))
  {
    if id in s.home {
      Home(s, id);
      var i := TierIndex(s.tiers, s.home[id]).value;
      if CanWrite(s.tiers[i], id, offset, buf) {
        WriteAtKeeps(s, i, id, buf, offset);
        var t := WriteAt(s, i, id, buf, offset);
        TouchedKeeps(t, id, t.meta);
        assert Touched(t, id).(meta := t.meta) == Touched(t, id);
      }
    }
  }

  function RemoveBlock(s: State, id: BlockId): Outcome
  {
    var i := if id in s.home then TierIndex(s.tiers, s.home[id]) else None;
    Outcome(State(if i.Some? then s.tiers[i.value := Removed(s.tiers[i.value], id)] else s.tiers,
                  s.home - {id}, ManagerRemove(s.mgr, id), s.meta - {id}, s.hist + [Forget(id)]), Ok, [])
  }

  lemma RemoveKeeps(s: State, id: BlockId)
    requires Inv(s)
    ensures var t := RemoveBlock(s, id).state;
            && RemoveBlock(s, id).status == Ok && Inv(t) && t.home == s.home - {id} && (Exact(s) ==> Exact(t))
            && (forall x | x in t.home :: BlockOf(t, x) == BlockOf(s, x))
  {
    hide ManagerInv, Tracking;
    var t := RemoveBlock(s, id).state;
    ManagerRemoveKeeps(s.hist, s.mgr, id);
    if id in s.home {
      assert Housed(s, id);
      var i := TierIndex(s.tiers, s.home[id]).value;
      DropBlockKeeps(s, i, id);
      var mid := DropBlock(s, i, id);
      StructuredIgnoresManager(mid, t);
    } else {
      assert s.home - {id} == s.home && s.meta - {id} == s.meta;
      StructuredIgnoresManager(s, t);
    }
    forall x | x in t.mgr.sizes ensures Sized(t, x) {
      assert Sized(s, x);
    }
  }

  // ---------- Moving between tiers ----------

  function Imported(t: Tier, id: BlockId, bytes: seq<byte>): Tier
  {
    Written(Allocated(t, id, |bytes|), id, 0, bytes)
  }

  /** The block imported into tier `j`, then removed from tier `i`. */
  function MoveBlock(s: State, i: nat, j: nat, id: BlockId): State
    requires i < |s.tiers| && j < |s.tiers| && i != j && id in s.tiers[i].blocks && id in s.meta
    requires TierInv(s.tiers[i])
  {
    var bytes := Contents(s.tiers[i].blocks[id]);
    var kind := s.tiers[j].kind;
    s.(tiers := s.tiers[j := Imported(s.tiers[j], id, bytes)][i := Removed(s.tiers[i], id)],
       meta := s.meta[id := s.meta[id].(tier := kind)],
       home := s.home[id := kind])
  }

  /** What a move makes of one tier: the block has left tier `i` and entered tier `j`. */
  lemma MoveTier(s: State, i: nat, j: nat, id: BlockId, k: nat)
    requires Structured(s) && i < |s.tiers| && j < |s.tiers| && i != j && k < |s.tiers|
    requires id in s.home && s.home[id] == s.tiers[i].kind && id in s.tiers[i].blocks
    requires CanAllocate(s.tiers[j], id, s.tiers[i].blocks[id].capacity) && TierInv(s.tiers[i])
    ensures var t := MoveBlock(s, i, j, id).tiers[k];
            && TierInv(t) && t.kind == s.tiers[k].kind
            && forall x :: x in t.blocks <==> (x in s.tiers[k].blocks && !(x == id && k == i)) || (x == id && k == j)
  {
    ImportRestores(s.tiers[j], id, Contents(s.tiers[i].blocks[id]));
    RemovedKeeps(s.tiers[i], id);
    assert TierInv(s.tiers[k]);
  }

  lemma MoveStructured(s: State, i: nat, j: nat, id: BlockId)
    requires Structured(s) && i < |s.tiers| && j < |s.tiers| && i != j
    requires id in s.home && s.home[id] == s.tiers[i].kind && id in s.tiers[i].blocks
    requires CanAllocate(s.tiers[j], id, s.tiers[i].blocks[id].capacity) && TierInv(s.tiers[i])
    ensures Structured(MoveBlock(s, i, j, id))
  {
    var t := MoveBlock(s, i, j, id);
    forall k | 0 <= k < |t.tiers| ensures TierInv(t.tiers[k]) && t.tiers[k].kind == s.tiers[k].kind {
      MoveTier(s, i, j, id, k);
    }
    forall k, x | 0 <= k < |t.tiers| ensures Lives(t, k, x) {
      assert Lives(s, k, x);
      MoveTier(s, i, j, id, k);
    }
    OwnIndex(s, j);
    forall x | x in t.home ensures Housed(t, x) {
      MoveIndex(s, i, j, id, t.home[x]);
      if x != id { assert Housed(s, x); }
    }
  }

  lemma MoveIndex(s: State, i: nat, j: nat, id: BlockId, kind: TierType)
    requires Structured(s) && i < |s.tiers| && j < |s.tiers| && i != j && id in s.tiers[i].blocks && id in s.meta
    requires TierInv(s.tiers[i])
    ensures TierIndex(MoveBlock(s, i, j, id).tiers, kind) == TierIndex(s.tiers, kind)
  {
    var bytes := Contents(s.tiers[i].blocks[id]);
    SameIndex(s.tiers, j, Imported(s.tiers[j], id, bytes), kind);
    SameIndex(s.tiers[j := Imported(s.tiers[j], id, bytes)], i, Removed(s.tiers[i], id), kind);
  }

  /** Moving a block to another tier changes no block's bytes. */
  lemma MoveOneBlock(s: State, i: nat, j: nat, id: BlockId, x: BlockId)
    requires Structured(s) && i < |s.tiers| && j < |s.tiers| && i != j && x in s.home
    requires id in s.home && s.home[id] == s.tiers[i].kind && id in s.tiers[i].blocks
    requires CanAllocate(s.tiers[j], id, s.tiers[i].blocks[id].capacity) && TierInv(s.tiers[i])
    requires Structured(MoveBlock(s, i, j, id)) && x in MoveBlock(s, i, j, id).home
    ensures var t := MoveBlock(s, i, j, id);
            BytesOf(t, x) == BytesOf(s, x) && BlockOf(t, x).capacity == BlockOf(s, x).capacity
  {
    hide Lives, Housed, FileWrite;
    var t := MoveBlock(s, i, j, id);
    Home(s, x);
    Home(t, x);
    MoveIndex(s, i, j, id, t.home[x]);
    OwnIndex(s, i);
    OwnIndex(s, j);
    assert TierInv(s.tiers[j]);
    ImportRestores(s.tiers[j], id, Contents(s.tiers[i].blocks[id]));
  }

  lemma MoveKeeps(s: State, i: nat, j: nat, id: BlockId)
    requires Inv(s) && i < |s.tiers| && j < |s.tiers| && i != j
    requires id in s.home && s.home[id] == s.tiers[i].kind && id in s.tiers[i].blocks
    requires CanAllocate(s.tiers[j], id, s.tiers[i].blocks[id].capacity) && TierInv(s.tiers[i])
    ensures var t := MoveBlock(s, i, j, id);
            && Inv(t) && t.home.Keys == s.home.Keys
            && (forall x | x in s.home :: BytesOf(t, x) == BytesOf(s, x) && BlockOf(t, x).capacity == BlockOf(s, x).capacity)
  {
    hide ManagerInv, Tracking, Lives, Housed, BytesOf, BlockOf, TierInv;
    var t := MoveBlock(s, i, j, id);
    MoveStructured(s, i, j, id);
    forall x | x in s.home
      ensures BytesOf(t, x) == BytesOf(s, x) && BlockOf(t, x).capacity == BlockOf(s, x).capacity
    {
      MoveOneBlock(s, i, j, id, x);
    }
    forall x | x in t.mgr.sizes ensures Sized(t, x) {
      assert Sized(s, x);
    }
  }

  /** The same blocks with the same bytes, wherever they live. */
  ghost predicate SameBytes(s: State, t: State)
  {
    && Structured(s) && Structured(t) && t.home.Keys == s.home.Keys
    && forall x {:trigger BytesOf(t, x)} | x in s.home :: BytesOf(t, x) == BytesOf(s, x)
  }

  ghost function PromoteBlock(s: State, id: BlockId, target: TierType): Outcome
    requires Structured(s)
  {
    if id !in s.home then Outcome(s, NotFound, []) else
    Home(s, id);
    var i := TierIndex(s.tiers, s.home[id]).value;
    if s.tiers[i].kind == target then Outcome(s, Ok, []) else
    match TierIndex(s.tiers, target)
    case None => Outcome(s, NotFound, [])
    case Some(j) =>
      if id in s.tiers[j].blocks then Outcome(s, AlreadyExists, [])
      else if !CanAllocate(s.tiers[j], id, s.tiers[i].blocks[id].capacity) then Outcome(s, ResourceExhausted, [])
      else Outcome(MoveBlock(s, i, j, id), Ok, [])
  }

  /** The cases of a promotion, by where source and target tier are found. */
  lemma PromoteCases(s: State, id: BlockId, target: TierType)
    requires Structured(s)
    ensures var src, dst := if id in s.home then TierIndex(s.tiers, s.home[id]) else None, TierIndex(s.tiers, target);
            var o := PromoteBlock(s, id, target);
            && (src.None? ==> o == Outcome(s, NotFound, []))
            && (src.Some? ==> id in s.tiers[src.value].blocks && id in s.meta && TierInv(s.tiers[src.value]))
            && (src.Some? && s.tiers[src.value].kind == target ==> o == Outcome(s, Ok, []))
            && (src.Some? && s.tiers[src.value].kind != target && dst.None? ==> o == Outcome(s, NotFound, []))
            && (src.Some? && s.tiers[src.value].kind != target && dst.Some? ==>
                  o == if id in s.tiers[dst.value].blocks then Outcome(s, AlreadyExists, [])
                       else if !CanAllocate(s.tiers[dst.value], id, s.tiers[src.value].blocks[id].capacity) then Outcome(s, ResourceExhausted, [])
                       else Outcome(MoveBlock(s, src.value, dst.value, id), Ok, []))
  {
    hide TierInv, MoveBlock, TierIndex, Lives, Housed;
    if id in s.home {
      Home(s, id);
      HasRecord(s, id);
    }
  }

  /** There is a target tier, another one than the block's own, that can take its whole capacity. */
  ghost predicate HasRoomIn(s: State, target: TierType, id: BlockId)
    requires Structured(s) && id in s.home
  {
    exists j | 0 <= j < |s.tiers| :: s.tiers[j].kind == target && s.home[id] != target && s.tiers[j].used + BlockOf(s, id).capacity <= s.tiers[j].capacity
  }

  lemma RoomIs(s: State, target: TierType, id: BlockId, j: nat)
    requires Structured(s) && id in s.home && s.home[id] != target && TierIndex(s.tiers, target) == Some(j)
    ensures id !in s.tiers[j].blocks
    ensures HasRoomIn(s, target, id) <==> s.tiers[j].used + BlockOf(s, id).capacity <= s.tiers[j].capacity
  {
    hide TierInv, BlockOf;
    assert Lives(s, j, id);
    forall k | 0 <= k < |s.tiers| && s.tiers[k].kind == target ensures k == j { }
  }

  /** A promotion moves exactly the one block, bytes unchanged, or nothing at all. */
  lemma PromoteKeeps(s: State, id: BlockId, target: TierType)
    requires Inv(s)
    ensures var o := PromoteBlock(s, id, target);
            && Inv(o.state) && SameBytes(s, o.state)
            && (o.status == Ok ==> id in s.home && o.state.home == s.home[id := target])
            && (o.status == Ok <==> id in s.home && (s.home[id] == target || HasRoomIn(s, target, id)))
            && (o.status == NotFound <==> id !in s.home || (s.home[id] != target && TierIndex(s.tiers, target).None?))
            && o.status in {Ok, NotFound, ResourceExhausted}
            && (o.status != Ok || s.home[id] == target ==> o.state == s)
            && |o.state.tiers| == |s.tiers| && o.state.mgr == s.mgr && o.state.hist == s.hist && (|s.tiers| == 1 ==> o.state == s)
  {
    hide ManagerInv, Tracking, PromoteBlock, Structured, TierInv, BytesOf;
    PromoteCases(s, id, target);
    if id in s.home {
      Home(s, id);
      var i := TierIndex(s.tiers, s.home[id]).value;
      if s.tiers[i].kind != target && TierIndex(s.tiers, target).Some? {
        var j := TierIndex(s.tiers, target).value;
        RoomIs(s, target, id, j);
        if CanAllocate(s.tiers[j], id, s.tiers[i].blocks[id].capacity) { MoveKeeps(s, i, j, id); }
      } else {
        NoSuchRoom(s, target, id);
      }
    }
  }

  lemma NoSuchRoom(s: State, target: TierType, id: BlockId)
    requires Structured(s) && id in s.home && (s.home[id] == target || TierIndex(s.tiers, target).None?)
    ensures !HasRoomIn(s, target, id)
  {
  }

  /** The speed of a tier, fastest first. */
  function Rank(kind: TierType): nat { match kind case Memory => 0 case SSD => 1 case HDD => 2 }

  function Faster(kind: TierType): Option<TierType>
  {
    match kind
    case HDD => Some(SSD)
    case SSD => Some(Memory)
    case Memory => None
  }

  /** One step up, and from the fastest tier nowhere. */
  lemma FasterIsNext(kind: TierType, up: TierType)
    ensures Faster(kind) == Some(up) <==> Rank(up) + 1 == Rank(kind)
    ensures Faster(kind).None? <==> Rank(kind) == 0
  {
  }

  /** Moves a hot block one tier up if that tier exists and has room for the block's recorded length. */
  ghost function MaybeAutoPromote(s: State, opts: Options, id: BlockId): State
    requires Inv(s)
  {
    if opts.promoteAfter == 0 || id !in s.home || s.meta[id].accessCount < opts.promoteAfter then s else
    match Faster(s.home[id])
    case None => s
    case Some(up) =>
      match TierIndex(s.tiers, up)
      case None => s
      case Some(j) => if Available(s.tiers[j]) < s.meta[id].length then s else PromoteBlock(s, id, up).state
  }

  lemma AutoPromoteKeeps(s: State, opts: Options, id: BlockId)
    requires Inv(s)
    ensures var t := MaybeAutoPromote(s, opts, id);
            && Inv(t) && SameBytes(s, t) && t.mgr == s.mgr && t.hist == s.hist && |t.tiers| == |s.tiers|
  {
    hide ManagerInv, Tracking, PromoteBlock, HasRoomIn;
    if id in s.home && Faster(s.home[id]).Some? { PromoteKeeps(s, id, Faster(s.home[id]).value); }
  }

  /** The block has been read often enough, there is a faster tier next to its own, and that tier has room for it. */
  ghost predicate MovesUp(s: State, opts: Options, id: BlockId, count: nat)
    requires Structured(s) && id in s.home
  {
    count >= opts.promoteAfter > 0 && exists up :: Rank(up) + 1 == Rank(s.home[id]) && HasRoomIn(s, up, id)
  }

  /** Auto-promotion moves the one block one tier up exactly when it is due and there is room, and otherwise does nothing. */
  lemma AutoPromoteExactly(s: State, opts: Options, id: BlockId)
    requires Inv(s) && id in s.home && id in s.meta && s.meta[id].length == BlockOf(s, id).capacity
    ensures var t := MaybeAutoPromote(s, opts, id);
            if MovesUp(s, opts, id, s.meta[id].accessCount) then
              exists up :: Rank(up) + 1 == Rank(s.home[id]) && t.home == s.home[id := up]
            else t == s
  {
    hide ManagerInv, Tracking, Structured, PromoteBlock, HasRoomIn, BlockOf;
    forall up ensures Faster(s.home[id]) == Some(up) <==> Rank(up) + 1 == Rank(s.home[id]) { FasterIsNext(s.home[id], up); }
    var next := Faster(s.home[id]);
    if next.Some? {
      PromoteKeeps(s, id, next.value);
      var j := TierIndex(s.tiers, next.value);
      if j.Some? { RoomIs(s, next.value, id, j.value); } else { NoSuchRoom(s, next.value, id); }
    }
  }

  /** The bytes a read returns: memory stops at the capacity, a file at its end. */
  function ReadBytes(t: Tier, id: BlockId, size: nat, offset: nat): seq<byte>
    requires id in t.blocks && t.blocks[id].capacity <= |t.blocks[id].data|
  {
    var b := t.blocks[id];
    var end := if t.kind == Memory then b.capacity else |b.data|;
    b.data[Min(offset, end)..Min(offset + size, end)]
  }

  /** A read of a memory block has to start inside it; a file can be read anywhere. */
  ghost predicate StartsInside(s: State, id: BlockId, offset: nat)
    requires Structured(s)
  {
    id in s.home && s.home[id] == Memory ==> offset <= |BytesOf(s, id)|
  }

  /** A read counts as an access, in the policy and in the metadata. */
  function Accessed(s: State, id: BlockId): State
    requires id in s.meta
  {
    Touched(s, id).(meta := s.meta[id := s.meta[id].(accessCount := s.meta[id].accessCount + 1)])
  }

  lemma AccessedKeeps(s: State, id: BlockId)
    requires Inv(s) && id in s.home
    ensures Inv(Accessed(s, id)) && SameBytes(s, Accessed(s, id)) && Accessed(s, id).home == s.home
  {
    TouchedKeeps(s, id, Accessed(s, id).meta);
    assert Touched(s, id).(meta := Accessed(s, id).meta) == Accessed(s, id);
  }

  /** A successful read may promote the block. */
  ghost function ReadBlock(s: State, opts: Options, id: BlockId, size: nat, offset: nat): Outcome
    requires Inv(s) && StartsInside(s, id, offset)
  {
    if id !in s.home then Outcome(s, NotFound, []) else
    Home(s, id);
    AccessedKeeps(s, id);
    Outcome(MaybeAutoPromote(Accessed(s, id), opts, id), Ok,
            ReadBytes(s.tiers[TierIndex(s.tiers, s.home[id]).value], id, size, offset))
  }

  lemma SameBytesTransitive(s: State, t: State, u: State)
    requires SameBytes(s, t) && SameBytes(t, u)
    ensures SameBytes(s, u)
  {
    forall x | x in s.home ensures BytesOf(u, x) == BytesOf(s, x) {
      assert BytesOf(t, x) == BytesOf(s, x);
    }
  }

  lemma ReadKeeps(s: State, opts: Options, id: BlockId, size: nat, offset: nat)
    requires Inv(s) && StartsInside(s, id, offset)
    ensures var o := ReadBlock(s, opts, id, size, offset);
            && Inv(o.state) && SameBytes(s, o.state) && (Exact(s) ==> Exact(o.state))
            && o.status == (if id in s.home then Ok else NotFound)
  {
    if id in s.home {
      AccessedKeeps(s, id);
      AutoPromoteKeeps(Accessed(s, id), opts, id);
      SameBytesTransitive(s, Accessed(s, id), MaybeAutoPromote(Accessed(s, id), opts, id));
    }
  }

  /** Memory is read up to the block's end, a file up to its own, which a write may have moved past the block's. */
  lemma ReadReturnsAll(s: State, opts: Options, id: BlockId, size: nat, offset: nat)
    requires Inv(s) && StartsInside(s, id, offset)
    ensures var o := ReadBlock(s, opts, id, size, offset);
            if id !in s.home then o == Outcome(s, NotFound, [])
            else
              var bytes := if s.home[id] == Memory then BytesOf(s, id) else BlockOf(s, id).data;
              o.data == bytes[Min(offset, |bytes|)..Min(offset + size, |bytes|)] && BytesOf(s, id) <= BlockOf(s, id).data
  {
    hide ManagerInv, Tracking, MaybeAutoPromote, Accessed;
    if id in s.home { Home(s, id); }
  }

  /** What was just written is read back, past the end of a disk block, too. */
  lemma WriteThenRead(s: State, opts: Options, id: BlockId, buf: seq<byte>, offset: nat)
    requires Inv(s) && WriteBlock(s, id, buf, offset).status == Ok && buf != []
    ensures var t := WriteBlock(s, id, buf, offset).state;
            Inv(t) && StartsInside(t, id, offset) && ReadBlock(t, opts, id, |buf|, offset).data == buf
  {
    hide ManagerInv, Tracking, Structured, BytesOf, BlockOf, WriteBlock, ReadBlock, FileWrite, Patch;
    WriteKeeps(s, id, buf, offset);
    var t := WriteBlock(s, id, buf, offset).state;
    WrittenData(s, id, buf, offset);
    FileWriteReads(BlockOf(s, id).data, offset, buf);
    SizesKept(s, id, buf, offset);
    ReadReturnsAll(t, opts, id, |buf|, offset);
    var data := BlockOf(t, id).data;
    if t.home[id] == Memory { assert BytesOf(t, id)[offset..offset + |buf|] == data[offset..offset + |buf|]; }
  }

  lemma SizesKept(s: State, id: BlockId, buf: seq<byte>, offset: nat)
    requires Inv(s) && WriteBlock(s, id, buf, offset).status == Ok
    ensures var t := WriteBlock(s, id, buf, offset).state;
            Inv(t) && id in s.home && id in t.home && |BytesOf(t, id)| == |BytesOf(s, id)|
  {
    hide ManagerInv, Tracking, Structured, BytesOf, WriteBlock;
    WriteKeeps(s, id, buf, offset);
  }

  lemma FileWriteReads(data: seq<byte>, offset: nat, buf: seq<byte>)
    requires buf != []
    ensures var r := FileWrite(data, offset, buf);
            offset + |buf| <= |r| && r[offset..offset + |buf|] == buf
  {
    var r := FileWrite(data, offset, buf);
    var read := r[offset..offset + |buf|];
    forall k | 0 <= k < |buf| ensures read[k] == buf[k] { assert read[k] == r[offset + k]; }
  }

  lemma WrittenData(s: State, id: BlockId, buf: seq<byte>, offset: nat)
    requires Inv(s) && WriteBlock(s, id, buf, offset).status == Ok
    ensures var t := WriteBlock(s, id, buf, offset).state;
            Inv(t) && id in s.home && t.home == s.home && BlockOf(t, id).data == FileWrite(BlockOf(s, id).data, offset, buf)
  {
    hide ManagerInv, Tracking, Lives, Housed, FileWrite;
    WriteKeeps(s, id, buf, offset);
    Home(s, id);
    var i := TierIndex(s.tiers, s.home[id]).value;
    SameIndex(s.tiers, i, Written(s.tiers[i], id, offset, buf), s.home[id]);
  }

  /** A read inside the block returns exactly that range of its bytes. */
  lemma ReadReturns(s: State, opts: Options, id: BlockId, size: nat, offset: nat)
    requires Inv(s) && id in s.home && offset + size <= |BytesOf(s, id)|
    ensures ReadBlock(s, opts, id, size, offset).data == BytesOf(s, id)[offset..offset + size]
  {
    Home(s, id);
  }

  // ---------- Whole runs ----------

  datatype Op =
    | EnsureOp(id: BlockId, size: nat, metaOk: bool)
    | ReadOp(id: BlockId, size: nat, offset: nat)
    | WriteOp(id: BlockId, buf: seq<byte>, offset: nat)
    | RemoveOp(id: BlockId)
    | PromoteOp(id: BlockId, target: TierType)
    | EvictOp(kind: TierType, needed: nat)

  /** What callers must respect: block id 0 is reserved, and reads of memory start inside the block. */
  ghost predicate Callable(s: State, op: Op)
    requires Inv(s)
  {
    match op
    case EnsureOp(id, _, _) => id != NO_BLOCK
    case ReadOp(id, _, offset) => StartsInside(s, id, offset)
    case _ => true
  }

  /** Creates a block unless it is stored already. */
  ghost function EnsureBlock(s: State, opts: Options, id: BlockId, size: nat, metaOk: bool): Outcome
    requires Inv(s) && Sane(opts) && id != NO_BLOCK
  {
    if id in s.home then Outcome(s, Ok, []) else CreateBlock(s, opts, id, size, metaOk)
  }

  /** A stored block is left alone, and a missing one created; it never counts as existing already. */
  lemma EnsureAnswers(s: State, opts: Options, id: BlockId, size: nat, metaOk: bool)
    requires Inv(s) && Sane(opts) && id != NO_BLOCK
    ensures var o := EnsureBlock(s, opts, id, size, metaOk);
            && (id in s.home ==> o.status == Ok && o.state == s)
            && (id !in s.home ==> o == CreateBlock(s, opts, id, size, metaOk) && o.status != AlreadyExists)
  {
    hide ManagerInv, Tracking, Structured, CreateBlock, MayCreate;
    CreateKeeps(s, opts, id, size, metaOk);
  }

  ghost function Step(s: State, opts: Options, op: Op): Outcome
    requires Inv(s) && Sane(opts) && Callable(s, op)
  {
    match op
    case EnsureOp(id, size, metaOk) => EnsureBlock(s, opts, id, size, metaOk)
    case ReadOp(id, size, offset) => ReadBlock(s, opts, id, size, offset)
    case WriteOp(id, buf, offset) => WriteBlock(s, id, buf, offset)
    case RemoveOp(id) => RemoveBlock(s, id)
    case PromoteOp(id, target) => PromoteBlock(s, id, target)
    case EvictOp(kind, needed) => Outcome(Evict(s, kind, needed), Ok, [])
  }

  /** The reference: what each block should hold, as if every block were kept for ever. */
  ghost function Expect(ref: map<BlockId, seq<byte>>, s: State, op: Op, status: Status): map<BlockId, seq<byte>>
  {
    match op
    case EnsureOp(id, size, _) => if id !in s.home && status == Ok then ref[id := Zeros(size)] else ref
    case WriteOp(id, buf, offset) => if status == Ok && id in ref then ref[id := Patch(ref[id], offset, buf)] else ref
    case _ => ref
  }

  /** Every stored block holds exactly the expected bytes. */
  ghost predicate Agrees(s: State, ref: map<BlockId, seq<byte>>)
    requires Structured(s)
  {
    forall id | id in s.home :: id in ref && BytesOf(s, id) == ref[id]
  }

  lemma AgreesSame(s: State, t: State, ref: map<BlockId, seq<byte>>)
    requires SameBytes(s, t) && Agrees(s, ref)
    ensures Agrees(t, ref)
  {
    forall id | id in t.home ensures id in ref && BytesOf(t, id) == ref[id] {
      assert BytesOf(t, id) == BytesOf(s, id);
    }
  }

  lemma AgreesFewer(s: State, t: State, ref: map<BlockId, seq<byte>>)
    requires Structured(s) && Structured(t) && Agrees(s, ref)
    requires forall x | x in t.home :: x in s.home && BlockOf(t, x) == BlockOf(s, x)
    ensures Agrees(t, ref)
  {
  }

  lemma EnsureAgrees(s: State, opts: Options, id: BlockId, size: nat, metaOk: bool, ref: map<BlockId, seq<byte>>)
    requires Inv(s) && Sane(opts) && id != NO_BLOCK && Agrees(s, ref)
    ensures var o := EnsureBlock(s, opts, id, size, metaOk);
            Inv(o.state) ==> Agrees(o.state, Expect(ref, s, EnsureOp(id, size, metaOk), o.status))
  {
    hide ManagerInv, Tracking, CreateBlock, MayCreate, Structured;
    if id !in s.home {
      CreateKeeps(s, opts, id, size, metaOk);
      var o := CreateBlock(s, opts, id, size, metaOk);
      if Inv(o.state) {
        forall x | x in o.state.home && x != id ensures x in ref && BytesOf(o.state, x) == ref[x] {
          assert Untouched(s, o.state, x);
        }
      }
    }
  }

  lemma WriteAgrees(s: State, id: BlockId, buf: seq<byte>, offset: nat, ref: map<BlockId, seq<byte>>)
    requires Inv(s) && Agrees(s, ref)
    ensures var o := WriteBlock(s, id, buf, offset);
            Inv(o.state) && Agrees(o.state, Expect(ref, s, WriteOp(id, buf, offset), o.status))
  {
    hide ManagerInv, Tracking, WriteBlock, Structured, BytesOf, Patch;
    WriteKeeps(s, id, buf, offset);
  }

  /** Everything but the creation of an absent block is safe; that is safe where a failed metadata write leaves no leak. */
  ghost predicate Safe(s: State, op: Op)
    requires Inv(s)
  {
    op.EnsureOp? && op.id !in s.home ==> MayCreate(s, op.id, op.size, op.metaOk)
  }

  /** An operation keeps the structural invariant exactly when it is safe. */
  lemma StepInv(s: State, opts: Options, op: Op)
    requires Inv(s) && Sane(opts) && Callable(s, op)
    ensures Inv(Step(s, opts, op).state) <==> Safe(s, op)
  {
    hide ManagerInv, Tracking, Structured, CreateBlock, MayCreate, ReadBlock, WriteBlock, RemoveBlock, PromoteBlock, Evict;
    match op
    case EnsureOp(id, size, metaOk) => if id !in s.home { CreateKeeps(s, opts, id, size, metaOk); }
    case ReadOp(id, size, offset) => ReadKeeps(s, opts, id, size, offset);
    case WriteOp(id, buf, offset) => WriteKeeps(s, id, buf, offset);
    case RemoveOp(id) => RemoveKeeps(s, id);
    case PromoteOp(id, target) => PromoteKeeps(s, id, target);
    case EvictOp(kind, needed) => EvictKeeps(s, kind, needed);
  }

  /**
   * Every safe operation keeps the invariant and the agreement with the reference: a block's bytes
   * change only by the requested write, and otherwise stay or disappear as a whole.
   */
  lemma StepKeeps(s: State, opts: Options, op: Op, ref: map<BlockId, seq<byte>>)
    requires Inv(s) && Sane(opts) && Callable(s, op) && Safe(s, op) && Agrees(s, ref)
    ensures var o := Step(s, opts, op);
            Inv(o.state) && Agrees(o.state, Expect(ref, s, op, o.status))
  {
    hide ManagerInv, Tracking, Structured, CreateBlock, MayCreate, ReadBlock, WriteBlock, RemoveBlock, PromoteBlock, Evict, Agrees;
    StepInv(s, opts, op);
    match op
    case EnsureOp(id, size, metaOk) => EnsureAgrees(s, opts, id, size, metaOk, ref);
    case ReadOp(id, size, offset) =>
      ReadKeeps(s, opts, id, size, offset);
      AgreesSame(s, ReadBlock(s, opts, id, size, offset).state, ref);
    case WriteOp(id, buf, offset) => WriteAgrees(s, id, buf, offset, ref);
    case RemoveOp(id) =>
      RemoveKeeps(s, id);
      AgreesFewer(s, RemoveBlock(s, id).state, ref);
    case PromoteOp(id, target) =>
      PromoteKeeps(s, id, target);
      AgreesSame(s, PromoteBlock(s, id, target).state, ref);
    case EvictOp(kind, needed) =>
      EvictKeeps(s, kind, needed);
      AgreesFewer(s, Evict(s, kind, needed), ref);
  }

  /** Callers respect the preconditions, and no metadata write fails after its block was allocated. */
  ghost predicate ValidRun(s: State, opts: Options, ops: seq<Op>)
    requires Inv(s) && Sane(opts)
    decreases |ops|
  {
    ops == [] ||
    (&& Callable(s, ops[0]) && Safe(s, ops[0])
     && (StepInv(s, opts, ops[0]); ValidRun(Step(s, opts, ops[0]).state, opts, ops[1..])))
  }

  ghost function Final(s: State, opts: Options, ops: seq<Op>): State
    requires Inv(s) && Sane(opts) && ValidRun(s, opts, ops)
    decreases |ops|
  {
    if ops == [] then s else
    StepInv(s, opts, ops[0]);
    Final(Step(s, opts, ops[0]).state, opts, ops[1..])
  }

  ghost function Expected(ref: map<BlockId, seq<byte>>, s: State, opts: Options, ops: seq<Op>): map<BlockId, seq<byte>>
    requires Inv(s) && Sane(opts) && ValidRun(s, opts, ops)
    decreases |ops|
  {
    if ops == [] then ref else
    StepInv(s, opts, ops[0]);
    var o := Step(s, opts, ops[0]);
    Expected(Expect(ref, s, ops[0], o.status), o.state, opts, ops[1..])
  }

  /** Over any run across any tiers, whatever is still cached holds the bytes last written to it. */
  lemma {:induction false} RunsKeepContents(s: State, opts: Options, ops: seq<Op>, ref: map<BlockId, seq<byte>>)
    requires Inv(s) && Sane(opts) && ValidRun(s, opts, ops) && Agrees(s, ref)
    ensures Inv(Final(s, opts, ops)) && Agrees(Final(s, opts, ops), Expected(ref, s, opts, ops))
    decreases |ops|
  {
    if ops != [] {
      var o := Step(s, opts, ops[0]);
      StepKeeps(s, opts, ops[0], ref);
      RunsKeepContents(o.state, opts, ops[1..], Expect(ref, s, ops[0], o.status));
    }
  }

  /** The first candidate is always taken when anything is asked for. */
  lemma TakesFirst(h: History, m: Manager, needed: nat)
    requires ManagerInv(h, m)
    ensures var order := EvictionOrder(h, m.policy);
            var gone := order[..Count(order, m.sizes, needed)];
            m.sizes.Keys * Elements(gone) == {} <==> needed == 0 || m.sizes == map[]
  {
    var order := EvictionOrder(h, m.policy);
    OrderTotal(h, m);
    if needed > 0 && order != [] {
      var gone := order[..Count(order, m.sizes, needed)];
      assert order[0] in gone && order[0] in Elements(order);
      assert order[0] in m.sizes.Keys * Elements(gone);
    }
    if order == [] { assert m.sizes.Keys == {}; }
  }

  /** Evicting on behalf of a tier that the candidates do not live in keeps the blocks but loses track of them. */
  lemma EvictForOtherTier(s: State, kind: TierType, needed: nat)
    requires Inv(s) && Exact(s) && kind != s.tiers[0].kind
    ensures var t := Evict(s, kind, needed);
            Inv(t) && t.home == s.home && (Exact(t) <==> needed == 0 || s.home == map[])
  {
    hide Fits, Lives, Housed, TierInv;
    EvictKeeps(s, kind, needed);
    ExactBooks(s);
    TakesFirst(s.hist, s.mgr, needed);
    var t := Evict(s, kind, needed);
    assert t.home == s.home;
    assert s.mgr.sizes == map[] <==> s.home == map[] by {
      assert s.mgr.sizes.Keys == s.home.Keys;
    }
  }

  /** With one tier the tracked set and the byte total stay exact through every operation on that tier. */
  lemma StepStaysExact(s: State, opts: Options, op: Op)
    requires Inv(s) && Sane(opts) && Callable(s, op) && Safe(s, op) && Exact(s)
    requires op.EvictOp? ==> op.kind == s.tiers[0].kind
    ensures Inv(Step(s, opts, op).state) && Exact(Step(s, opts, op).state)
  {
    match op
    case EnsureOp(id, size, metaOk) =>
      if id !in s.home {
        CreateSingle(s, opts, id, size);
        if !metaOk { CreateWithoutMeta(s, opts, id, size); }
      }
    case ReadOp(id, size, offset) => ReadKeeps(s, opts, id, size, offset);
    case WriteOp(id, buf, offset) => WriteStaysExact(s, id, buf, offset);
    case RemoveOp(id) => RemoveKeeps(s, id);
    case PromoteOp(id, target) => PromoteKeeps(s, id, target);
    case EvictOp(kind, needed) => EvictSingle(s, needed);
  }

  lemma WriteStaysExact(s: State, id: BlockId, buf: seq<byte>, offset: nat)
    requires Inv(s) && Exact(s)
    ensures Inv(WriteBlock(s, id, buf, offset).state) && Exact(WriteBlock(s, id, buf, offset).state)
  {
    WriteKeeps(s, id, buf, offset);
  }
}
