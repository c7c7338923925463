/**
 * The metadata store of the worker: over any run the record of a block gives its capacity, the tier
 * it lives in, and how often it was read since it was created.
 */
module BlockRecords {
  import opened Common
  import opened CachePolicy
  import opened CacheManagers
  import opened StorageTiers
  import opened BlockStores

  type Seen = map<BlockId, nat>

  function ReadsOf(seen: Seen, id: BlockId): nat { if id in seen then seen[id] else 0 }

  ghost predicate RecordedAt(s: State, seen: Seen, id: BlockId)
    requires Structured(s) && id in s.home
  {
    HasRecord(s, id);
    s.meta[id] == Meta(BlockOf(s, id).capacity, s.home[id], ReadsOf(seen, id))
  }

  ghost predicate Recorded(s: State, seen: Seen)
    requires Structured(s)
  {
    forall id {:trigger RecordedAt(s, seen, id)} | id in s.home :: RecordedAt(s, seen, id)
  }

  /** The number of reads of every block since its creation, as an operation changes it. */
  function Tally(seen: Seen, s: State, op: Op, status: Status): Seen
  {
    match op
    case EnsureOp(id, _, _) => if id !in s.home && status == Ok then seen[id := 0] else seen
    case ReadOp(id, _, _) => if status == Ok then seen[id := ReadsOf(seen, id) + 1] else seen
    case _ => seen
  }

  /** What is left of a state has kept its home, its capacity and its record. */
  ghost predicate Remaining(s: State, t: State)
    requires Structured(s)
  {
    && Structured(t)
    && forall x {:trigger x in t.home} | x in t.home ::
         && x in s.home && t.home[x] == s.home[x] && BlockOf(t, x).capacity == BlockOf(s, x).capacity
         && x in t.meta && x in s.meta && t.meta[x] == s.meta[x]
  }

  lemma RemainingKeeps(s: State, t: State, seen: Seen)
    requires Structured(s) && Recorded(s, seen) && Remaining(s, t)
    ensures Recorded(t, seen)
  {
    hide Structured, BlockOf;
    forall x | x in t.home ensures RecordedAt(t, seen, x) { assert RecordedAt(s, seen, x); }
  }

  // ---------- Eviction and removal ----------

  lemma {:induction false} EvictListMeta(s: State, kind: TierType, victims: seq<BlockId>, x: BlockId)
    requires x in EvictList(s, kind, victims).meta
    ensures x in s.meta && EvictList(s, kind, victims).meta[x] == s.meta[x]
    decreases |victims|
  {
    if victims != [] { EvictListMeta(EvictAt(s, kind, victims[0]), kind, victims[1..], x); }
  }

  lemma EvictMeta(s: State, kind: TierType, needed: nat, x: BlockId)
    requires Inv(s) && x in Evict(s, kind, needed).meta
    ensures x in s.meta && Evict(s, kind, needed).meta[x] == s.meta[x]
  {
    hide Fits, Structured, EvictionOrder, AfterEvictions, EvictList;
    var order := EvictionOrder(s.hist, s.mgr.policy);
    var k := Count(order, s.mgr.sizes, needed);
    var (g, m) := AfterEvictions(s.hist, s.mgr, k);
    EvictListMeta(s.(mgr := m, hist := g), kind, order[..k], x);
  }

  lemma EvictRemains(s: State, kind: TierType, needed: nat)
    requires Inv(s)
    ensures Inv(Evict(s, kind, needed)) && Remaining(s, Evict(s, kind, needed))
  {
    hide Fits, Structured, Evict, BlockOf;
    EvictKeeps(s, kind, needed);
    var t := Evict(s, kind, needed);
    forall x | x in t.home ensures x in t.meta && x in s.meta && t.meta[x] == s.meta[x] {
      HasRecord(t, x);
      EvictMeta(s, kind, needed, x);
    }
  }

  lemma AutoEvictRemains(s: State, opts: Options, kind: TierType)
    requires Inv(s) && Sane(opts)
    ensures Inv(MaybeAutoEvict(s, opts, kind)) && Remaining(s, MaybeAutoEvict(s, opts, kind))
  {
    hide ManagerInv, Tracking, Structured, Evict, BlockOf;
    forall x | x in s.home ensures x in s.meta { HasRecord(s, x); }
    match TierIndex(s.tiers, kind)
    case None =>
    case Some(i) =>
      var t := s.tiers[i];
      if AboveHigh(t, opts) && t.used > LowMark(t, opts) { EvictRemains(s, kind, t.used - LowMark(t, opts)); }
  }

  lemma RemoveRemains(s: State, id: BlockId)
    requires Inv(s)
    ensures Inv(RemoveBlock(s, id).state) && Remaining(s, RemoveBlock(s, id).state)
  {
    hide ManagerInv, Tracking, Structured, BlockOf;
    RemoveKeeps(s, id);
    var t := RemoveBlock(s, id).state;
    forall x | x in t.home ensures x in t.meta && x in s.meta && t.meta[x] == s.meta[x] {
      HasRecord(t, x);
      HasRecord(s, x);
    }
  }

  // ---------- Creation ----------

  lemma EnterRecords(s: State, i: nat, id: BlockId, size: nat, seen: Seen)
    requires Inv(s) && i < |s.tiers| && id !in s.home && id != NO_BLOCK && Available(s.tiers[i]) >= size
    requires Recorded(s, seen)
    ensures Inv(Enter(s, i, id, size)) && Recorded(Enter(s, i, id, size), seen[id := 0])
  {
    hide ManagerInv, Tracking, Structured, BlockOf, BytesOf;
    EnterKeeps(s, i, id, size);
    var t := Enter(s, i, id, size);
    forall x | x in t.home ensures RecordedAt(t, seen[id := 0], x) {
      if x != id { assert RecordedAt(s, seen, x); }
    }
  }

  lemma CreateInRecords(s: State, opts: Options, i: nat, id: BlockId, size: nat, seen: Seen)
    requires Inv(s) && Sane(opts) && i < |s.tiers| && id !in s.home && id != NO_BLOCK && Available(s.tiers[i]) >= size
    requires Recorded(s, seen)
    ensures var o := CreateIn(s, opts, i, id, size, true);
            o.status == Ok && Inv(o.state) && Recorded(o.state, seen[id := 0])
  {
    hide ManagerInv, Tracking, Structured, Enter, MaybeAutoEvict, Recorded, Remaining;
    NotThere(s, i, id);
    EnterRecords(s, i, id, size, seen);
    var t := Enter(s, i, id, size);
    AutoEvictRemains(t, opts, s.tiers[i].kind);
    RemainingKeeps(t, MaybeAutoEvict(t, opts, s.tiers[i].kind), seen[id := 0]);
  }

  lemma CreateRecords(s: State, opts: Options, id: BlockId, size: nat, metaOk: bool, seen: Seen)
    requires Inv(s) && Sane(opts) && id !in s.home && id != NO_BLOCK && Recorded(s, seen) && MayCreate(s, id, size, metaOk)
    ensures var o := CreateBlock(s, opts, id, size, metaOk);
            Inv(o.state) && Recorded(o.state, if o.status == Ok then seen[id := 0] else seen)
  {
    hide ManagerInv, Tracking, Structured, CreateIn, Evict, Recorded, Remaining, Roomy, MayCreate;
    TiersExist(s);
    if !metaOk { CreateWithoutMeta(s, opts, id, size); }
    var room, first := Roomy(s.tiers, size), s.tiers[0].kind;
    if room.Some? {
      CreateInRecords(s, opts, room.value, id, size, seen);
    } else {
      var e := Evict(s, first, size);
      EvictOnlyFrom(s, first, size);
      EvictRemains(s, first, size);
      RemainingKeeps(s, e, seen);
      if Available(e.tiers[0]) >= size { CreateInRecords(e, opts, 0, id, size, seen); }
    }
  }

  // ---------- Writing, promoting and reading ----------

  lemma BytesFillCapacity(s: State, id: BlockId)
    requires Structured(s) && id in s.home
    ensures |BytesOf(s, id)| == BlockOf(s, id).capacity
  {
    Home(s, id);
  }

  lemma WriteRecords(s: State, id: BlockId, buf: seq<byte>, offset: nat, seen: Seen)
    requires Inv(s) && Recorded(s, seen)
    ensures Inv(WriteBlock(s, id, buf, offset).state) && Recorded(WriteBlock(s, id, buf, offset).state, seen)
  {
    hide ManagerInv, Tracking, Structured, BlockOf, BytesOf, Patch, Recorded, WriteAt;
    WriteKeeps(s, id, buf, offset);
    var t := WriteBlock(s, id, buf, offset).state;
    WriteMeta(s, id, buf, offset);
    forall x | x in t.home
      ensures BlockOf(t, x).capacity == BlockOf(s, x).capacity && x in t.meta && x in s.meta
    {
      BytesFillCapacity(s, x);
      BytesFillCapacity(t, x);
      HasRecord(s, x);
    }
    RemainingKeeps(s, t, seen);
  }

  lemma WriteMeta(s: State, id: BlockId, buf: seq<byte>, offset: nat)
    ensures WriteBlock(s, id, buf, offset).state.meta == s.meta
  {
  }

  lemma PromoteRecords(s: State, id: BlockId, target: TierType, seen: Seen)
    requires Inv(s) && Recorded(s, seen)
    ensures Inv(PromoteBlock(s, id, target).state) && Recorded(PromoteBlock(s, id, target).state, seen)
  {
    hide ManagerInv, Tracking, Structured, BlockOf, BytesOf, MoveBlock, HasRoomIn;
    PromoteKeeps(s, id, target);
    var t := PromoteBlock(s, id, target).state;
    PromoteMeta(s, id, target);
    forall x | x in t.home ensures RecordedAt(t, seen, x) {
      assert RecordedAt(s, seen, x);
      BytesFillCapacity(s, x);
      BytesFillCapacity(t, x);
      HasRecord(s, x);
    }
  }

  /** A promotion rewrites the tier of the one record, or nothing. */
  lemma PromoteMeta(s: State, id: BlockId, target: TierType)
    requires Inv(s)
    ensures var o := PromoteBlock(s, id, target);
            o.state == s || (o.status == Ok && id in s.meta && o.state.meta == s.meta[id := s.meta[id].(tier := target)])
  {
    hide ManagerInv, Tracking;
    if id in s.home { Home(s, id); }
  }

  lemma ReadRecords(s: State, opts: Options, id: BlockId, size: nat, offset: nat, seen: Seen)
    requires Inv(s) && id in s.home && StartsInside(s, id, offset) && Recorded(s, seen)
    ensures var o := ReadBlock(s, opts, id, size, offset);
            Inv(o.state) && Recorded(o.state, seen[id := ReadsOf(seen, id) + 1])
  {
    hide ManagerInv, Tracking, Structured, BlockOf, BytesOf, Recorded, PromoteBlock;
    HasRecord(s, id);
    AccessRecords(s, id, seen);
    var t, more := Accessed(s, id), seen[id := ReadsOf(seen, id) + 1];
    if id in t.home && Faster(t.home[id]).Some? { PromoteRecords(t, id, Faster(t.home[id]).value, more); }
  }

  /** A read moves its block one tier up exactly when it is due by the reads counted so far and there is room, and otherwise moves nothing. */
  lemma ReadPromotes(s: State, opts: Options, id: BlockId, size: nat, offset: nat, seen: Seen)
    requires Inv(s) && id in s.home && StartsInside(s, id, offset) && Recorded(s, seen)
    ensures var t := ReadBlock(s, opts, id, size, offset).state;
            if MovesUp(s, opts, id, ReadsOf(seen, id) + 1) then
              exists up :: Rank(up) + 1 == Rank(s.home[id]) && t.home == s.home[id := up]
            else t.home == s.home
  {
    hide ManagerInv, Tracking, Structured, BlockOf, BytesOf, HasRoomIn, MaybeAutoPromote;
    HasRecord(s, id);
    AccessRecords(s, id, seen);
    AccessedKeeps(s, id);
    var t := Accessed(s, id);
    assert RecordedAt(t, seen[id := ReadsOf(seen, id) + 1], id);
    assert RecordedAt(s, seen, id);
    AutoPromoteExactly(t, opts, id);
    forall up ensures HasRoomIn(t, up, id) == HasRoomIn(s, up, id) { SameRoom(s, t, up, id); }
  }

  lemma SameRoom(s: State, t: State, up: TierType, id: BlockId)
    requires Structured(s) && Structured(t) && t.tiers == s.tiers && t.home == s.home && id in s.home
    ensures HasRoomIn(t, up, id) == HasRoomIn(s, up, id)
  {
    hide Structured;
  }

  lemma AccessRecords(s: State, id: BlockId, seen: Seen)
    requires Inv(s) && id in s.home && id in s.meta && Recorded(s, seen)
    ensures Inv(Accessed(s, id)) && Recorded(Accessed(s, id), seen[id := ReadsOf(seen, id) + 1])
  {
    hide ManagerInv, Tracking, Structured, BlockOf, BytesOf;
    AccessedKeeps(s, id);
    var t, more := Accessed(s, id), seen[id := ReadsOf(seen, id) + 1];
    forall x | x in t.home ensures RecordedAt(t, more, x) {
      assert RecordedAt(s, seen, x);
      BytesFillCapacity(s, x);
      BytesFillCapacity(t, x);
    }
  }

  // ---------- Whole runs ----------

  /** Every operation keeps the records true. */
  lemma StepRecords(s: State, opts: Options, op: Op, seen: Seen)
    requires Inv(s) && Sane(opts) && Callable(s, op) && Safe(s, op) && Recorded(s, seen)
    ensures var o := Step(s, opts, op);
            Inv(o.state) && Recorded(o.state, Tally(seen, s, op, o.status))
  {
    hide ManagerInv, Tracking, Structured, BlockOf, Recorded, Remaining, CreateBlock, WriteBlock, PromoteBlock, Evict;
    match op
    case EnsureOp(id, size, metaOk) => if id !in s.home { CreateRecords(s, opts, id, size, metaOk, seen); }
    case ReadOp(id, size, offset) => if id in s.home { ReadRecords(s, opts, id, size, offset, seen); }
    case WriteOp(id, buf, offset) => WriteRecords(s, id, buf, offset, seen);
    case RemoveOp(id) =>
      RemoveRemains(s, id);
      RemainingKeeps(s, RemoveBlock(s, id).state, seen);
    case PromoteOp(id, target) => PromoteRecords(s, id, target, seen);
    case EvictOp(kind, needed) =>
      EvictRemains(s, kind, needed);
      RemainingKeeps(s, Evict(s, kind, needed), seen);
  }

  ghost function TallyRun(seen: Seen, s: State, opts: Options, ops: seq<Op>): Seen
    requires Inv(s) && Sane(opts) && ValidRun(s, opts, ops)
    decreases |ops|
  {
    if ops == [] then seen else
    StepInv(s, opts, ops[0]);
    var o := Step(s, opts, ops[0]);
    TallyRun(Tally(seen, s, ops[0], o.status), o.state, opts, ops[1..])
  }

  /** Over any run the record of every stored block is true. */
  lemma {:induction false} RunsKeepRecords(s: State, opts: Options, ops: seq<Op>, seen: Seen)
    requires Inv(s) && Sane(opts) && ValidRun(s, opts, ops) && Recorded(s, seen)
    ensures Inv(Final(s, opts, ops)) && Recorded(Final(s, opts, ops), TallyRun(seen, s, opts, ops))
    decreases |ops|
  {
    hide ManagerInv, Tracking, Structured, BlockOf, Recorded, Step, Tally;
    if ops != [] {
      var o := Step(s, opts, ops[0]);
      StepRecords(s, opts, ops[0], seen);
      RunsKeepRecords(o.state, opts, ops[1..], Tally(seen, s, ops[0], o.status));
    }
  }
}
