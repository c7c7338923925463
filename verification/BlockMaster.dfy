/**
 * The master's block-location index: which workers hold which blocks, kept in two maps, and the
 * callers that drop the locations of a file's blocks when the file is deleted or truncated.
 */
module BlockMasters {
  import opened Common
  import opened BlockIds
  import opened CachePolicy
  import opened StorageTiers
  import opened NamespaceTree

  type WorkerId = nat

  datatype Location = Location(block: BlockId, worker: WorkerId, address: Text, tier: TierType)

  /** Block to locations, and worker to blocks. */
  datatype Index = Index(locations: map<BlockId, seq<Location>>, held: map<WorkerId, set<BlockId>>)

  function At(locs: seq<Location>, w: WorkerId): (r: Option<nat>)
    ensures r.Some? ==> r.value < |locs| && locs[r.value].worker == w
    ensures r.None? ==> forall i | 0 <= i < |locs| :: locs[i].worker != w
  {
    if locs == [] then None
    else if locs[0].worker == w then Some(0)
    else match At(locs[1..], w)
         case None => assert forall i | 0 < i < |locs| :: locs[i] == locs[1..][i - 1]; None
         case Some(i) => Some(i + 1)
  }

  function Of(x: Index, b: BlockId): seq<Location> { if b in x.locations then x.locations[b] else [] }

  /** The relation as the forward map has it, and as the reverse map has it. */
  predicate Forward(x: Index, b: BlockId, w: WorkerId) { At(Of(x, b), w).Some? }

  predicate Reverse(x: Index, b: BlockId, w: WorkerId) { w in x.held && b in x.held[w] }

  /** A list has one entry per worker, each for this block. */
  predicate ListOk(locs: seq<Location>, b: BlockId)
  {
    && locs != [] && (forall i | 0 <= i < |locs| :: locs[i].block == b)
    && forall i, j | 0 <= i < j < |locs| :: locs[i].worker != locs[j].worker
  }

  predicate PairOk(x: Index, b: BlockId, w: WorkerId) { Forward(x, b, w) <==> Reverse(x, b, w) }

  /** Both maps denote one relation, with one entry per pair and no empty list. */
  ghost predicate Inv(x: Index)
  {
    && (forall b {:trigger ListOk(x.locations[b], b)} | b in x.locations :: ListOk(x.locations[b], b))
    && (forall b, w {:trigger PairOk(x, b, w)} :: PairOk(x, b, w))
  }

  // ---------- The operations on values ----------

  function Hold(held: map<WorkerId, set<BlockId>>, w: WorkerId, b: BlockId): map<WorkerId, set<BlockId>>
  {
    held[w := (if w in held then held[w] else {}) + {b}]
  }

  function Release(held: map<WorkerId, set<BlockId>>, w: WorkerId, b: BlockId): map<WorkerId, set<BlockId>>
  {
    if w in held then held[w := held[w] - {b}] else held
  }

  function ReleaseAll(held: map<WorkerId, set<BlockId>>, locs: seq<Location>, b: BlockId): map<WorkerId, set<BlockId>>
  {
    if locs == [] then held else ReleaseAll(Release(held, locs[0].worker, b), locs[1..], b)
  }

  /** Without the entries of one worker. */
  function Without(locs: seq<Location>, w: WorkerId): (r: seq<Location>)
  {
    if locs == [] then []
    else if locs[0].worker == w then Without(locs[1..], w)
    else [locs[0]] + Without(locs[1..], w)
  }

  /** A block known on the worker only changes its tier. */
  function Add(x: Index, loc: Location): Index
  {
    var locs := Of(x, loc.block);
    match At(locs, loc.worker)
    case Some(i) => x.(locations := x.locations[loc.block := locs[i := locs[i].(tier := loc.tier)]])
    case None => Index(x.locations[loc.block := locs + [loc]], Hold(x.held, loc.worker, loc.block))
  }

  function Unlist(locations: map<BlockId, seq<Location>>, b: BlockId, w: WorkerId): map<BlockId, seq<Location>>
  {
    if b !in locations then locations
    else if Without(locations[b], w) == [] then locations - {b}
    else locations[b := Without(locations[b], w)]
  }

  function Remove(x: Index, b: BlockId, w: WorkerId): Index
  {
    Index(Unlist(x.locations, b, w), Release(x.held, w, b))
  }

  function RemoveBlock(x: Index, b: BlockId): Index
  {
    if b !in x.locations then x
    else Index(x.locations - {b}, ReleaseAll(x.held, x.locations[b], b))
  }

  /** The lists of some blocks without the entries of one worker; a list left empty is gone. */
  function Purged(locations: map<BlockId, seq<Location>>, blocks: set<BlockId>, w: WorkerId): map<BlockId, seq<Location>>
  {
    map b | b in locations && !(b in blocks && Without(locations[b], w) == []) ::
      if b in blocks then Without(locations[b], w) else locations[b]
  }

  function RemoveWorker(x: Index, w: WorkerId): Index
  {
    if w !in x.held then x else Index(Purged(x.locations, x.held[w], w), x.held - {w})
  }

  // ---------- Lists ----------

  lemma {:induction false} WithoutKeeps(locs: seq<Location>, w: WorkerId)
    ensures forall l :: l in Without(locs, w) <==> l in locs && l.worker != w
  {
    if locs != [] {
      assert locs == [locs[0]] + locs[1..];
      WithoutKeeps(locs[1..], w);
    }
  }

  lemma {:induction false} WithoutDistinct(locs: seq<Location>, w: WorkerId)
    requires forall i, j | 0 <= i < j < |locs| :: locs[i].worker != locs[j].worker
    ensures forall i, j | 0 <= i < j < |Without(locs, w)| :: Without(locs, w)[i].worker != Without(locs, w)[j].worker
  {
    if locs != [] {
      var rest := Without(locs[1..], w);
      WithoutKeeps(locs[1..], w);
      WithoutDistinct(locs[1..], w);
      forall k | 0 <= k < |rest| ensures rest[k].worker != locs[0].worker {
        assert rest[k] in locs[1..];
      }
    }
  }

  lemma {:induction false} WithoutAbsent(locs: seq<Location>, w: WorkerId)
    ensures At(locs, w).None? ==> Without(locs, w) == locs
  {
    if locs != [] && At(locs, w).None? {
      assert locs == [locs[0]] + locs[1..];
      WithoutAbsent(locs[1..], w);
    }
  }

  /** What is left stays in its order. */
  lemma {:induction false} WithoutConcat(a: seq<Location>, b: seq<Location>, w: WorkerId)
    ensures Without(a + b, w) == Without(a, w) + Without(b, w)
    decreases |a|
  {
    if a == [] {
      assert a + b == b;
    } else {
      assert (a + b)[1..] == a[1..] + b && (a + b)[0] == a[0];
      WithoutConcat(a[1..], b, w);
    }
  }

  lemma AtIsMember(locs: seq<Location>, w: WorkerId)
    ensures At(locs, w).Some? <==> exists l :: l in locs && l.worker == w
  {
    var i := At(locs, w);
    if i.Some? { assert locs[i.value] in locs; }
  }

  lemma WithoutAt(locs: seq<Location>, w: WorkerId, v: WorkerId)
    ensures At(Without(locs, w), v).Some? <==> v != w && At(locs, v).Some?
  {
    WithoutKeeps(locs, w);
    AtIsMember(locs, v);
    AtIsMember(Without(locs, w), v);
  }

  lemma WithoutListOk(locs: seq<Location>, b: BlockId, w: WorkerId)
    requires ListOk(locs, b)
    ensures Without(locs, w) == [] || ListOk(Without(locs, w), b)
  {
    WithoutKeeps(locs, w);
    WithoutDistinct(locs, w);
    var r := Without(locs, w);
    assert forall i | 0 <= i < |r| :: r[i] in r;
  }

  // ---------- What every operation keeps, and what it changes ----------

  lemma {:induction false} ReleasedAll(held: map<WorkerId, set<BlockId>>, locs: seq<Location>, b: BlockId, c: BlockId, w: WorkerId)
    ensures var r := ReleaseAll(held, locs, b);
            w in r && c in r[w] <==> w in held && c in held[w] && !(c == b && At(locs, w).Some?)
    decreases |locs|
  {
    if locs != [] { ReleasedAll(Release(held, locs[0].worker, b), locs[1..], b, c, w); }
  }

  lemma AddKeeps(x: Index, loc: Location)
    requires Inv(x)
    ensures var y := Add(x, loc);
            && Inv(y)
            && (forall b, w :: Forward(y, b, w) <==> Forward(x, b, w) || (b == loc.block && w == loc.worker))
            && (forall b | b != loc.block :: Of(y, b) == Of(x, b))
            && (!Forward(x, loc.block, loc.worker) ==> Of(y, loc.block) == Of(x, loc.block) + [loc])
            && (Forward(x, loc.block, loc.worker) ==> Retiered(Of(x, loc.block), Of(y, loc.block), loc))
  {
    var y, locs := Add(x, loc), Of(x, loc.block);
    if loc.block in x.locations { assert ListOk(x.locations[loc.block], loc.block); }
    forall b | b in y.locations ensures ListOk(y.locations[b], b) {
      if b != loc.block { assert ListOk(x.locations[b], b); }
    }
    forall b, w ensures Forward(y, b, w) <==> Forward(x, b, w) || (b == loc.block && w == loc.worker) {
      if b == loc.block { AddAt(locs, loc, w); }
    }
    forall b, w ensures PairOk(y, b, w) { assert PairOk(x, b, w) && PairOk(x, loc.block, loc.worker); }
  }

  /** Entry by entry the same, in the same order, but for the tier of the one worker. */
  predicate Retiered(before: seq<Location>, after: seq<Location>, loc: Location)
  {
    && |after| == |before|
    && forall i | 0 <= i < |before| :: after[i] == if before[i].worker == loc.worker then before[i].(tier := loc.tier) else before[i]
  }

  lemma AddAt(locs: seq<Location>, loc: Location, w: WorkerId)
    ensures At(locs, loc.worker).None? ==> (At(locs + [loc], w).Some? <==> At(locs, w).Some? || w == loc.worker)
    ensures At(locs, loc.worker).Some? ==>
              var i := At(locs, loc.worker).value; At(locs[i := locs[i].(tier := loc.tier)], w).Some? <==> At(locs, w).Some?
  {
    AtIsMember(locs, w);
    var i := At(locs, loc.worker);
    if i.None? {
      AtIsMember(locs + [loc], w);
    } else {
      var r := locs[i.value := locs[i.value].(tier := loc.tier)];
      AtIsMember(r, w);
      if l :| l in locs && l.worker == w {
        var k :| 0 <= k < |locs| && locs[k] == l;
        assert r[k] in r && r[k].worker == w;
      }
      if l :| l in r && l.worker == w {
        var k :| 0 <= k < |r| && r[k] == l;
        assert locs[k] in locs && locs[k].worker == w;
      }
    }
  }

  lemma RemoveKeeps(x: Index, b: BlockId, w: WorkerId)
    requires Inv(x)
    ensures var y := Remove(x, b, w);
            && Inv(y)
            && (forall c, v :: Forward(y, c, v) <==> Forward(x, c, v) && !(c == b && v == w))
            && (forall c | c != b :: Of(y, c) == Of(x, c)) && Of(y, b) == Without(Of(x, b), w)
  {
    var y := Remove(x, b, w);
    if b in x.locations {
      assert ListOk(x.locations[b], b);
      WithoutListOk(x.locations[b], b, w);
    }
    forall c | c in y.locations ensures ListOk(y.locations[c], c) {
      if c != b { assert ListOk(x.locations[c], c); }
    }
    forall c, v ensures Forward(y, c, v) <==> Forward(x, c, v) && !(c == b && v == w) {
      if c == b { WithoutAt(Of(x, b), w, v); }
    }
    forall c, v ensures PairOk(y, c, v) { assert PairOk(x, c, v); }
  }

  lemma RemoveBlockKeeps(x: Index, b: BlockId)
    requires Inv(x)
    ensures var y := RemoveBlock(x, b);
            && Inv(y) && b !in y.locations
            && (forall c, v :: Forward(y, c, v) <==> Forward(x, c, v) && c != b)
            && (forall c | c != b :: Of(y, c) == Of(x, c))
  {
    var y := RemoveBlock(x, b);
    forall c | c in y.locations ensures ListOk(y.locations[c], c) {
      assert ListOk(x.locations[c], c);
    }
    forall c, v ensures PairOk(y, c, v) {
      assert PairOk(x, c, v);
      if b in x.locations { ReleasedAll(x.held, x.locations[b], b, c, v); }
    }
  }

  lemma PurgeOneMore(locations: map<BlockId, seq<Location>>, blocks: set<BlockId>, b: BlockId, w: WorkerId)
    requires b !in blocks
    ensures Unlist(Purged(locations, blocks, w), b, w) == Purged(locations, blocks + {b}, w)
  {
  }

  lemma PurgeNone(locations: map<BlockId, seq<Location>>, w: WorkerId)
    ensures Purged(locations, {}, w) == locations
  {
  }

  lemma RemoveWorkerKeeps(x: Index, w: WorkerId)
    requires Inv(x)
    ensures var y := RemoveWorker(x, w);
            && Inv(y) && (forall c, v :: Forward(y, c, v) <==> Forward(x, c, v) && v != w)
            && forall c :: Of(y, c) == Without(Of(x, c), w)
  {
    var y := RemoveWorker(x, w);
    forall c | c in y.locations ensures ListOk(y.locations[c], c) {
      assert ListOk(x.locations[c], c);
      WithoutListOk(x.locations[c], c, w);
    }
    forall c ensures Of(y, c) == Without(Of(x, c), w) {
      assert PairOk(x, c, w);
      WithoutAbsent(Of(x, c), w);
    }
    forall c, v ensures Forward(y, c, v) <==> Forward(x, c, v) && v != w {
      WithoutAt(Of(x, c), w, v);
    }
    forall c, v ensures PairOk(y, c, v) { assert PairOk(x, c, v); }
  }

  // ---------- Dropping a file's blocks ----------

  function DropRange(x: Index, inode: uint64, lo: uint32, hi: uint32): Index
    decreases hi
  {
    if hi <= lo then x else RemoveBlock(DropRange(x, inode, lo, hi - 1), MakeBlockId(inode, hi - 1))
  }

  ghost predicate InRange(inode: uint64, lo: uint32, hi: uint32, b: BlockId)
  {
    exists i: uint32 {:trigger MakeBlockId(inode, i)} :: lo <= i < hi && MakeBlockId(inode, i) == b
  }

  /** Exactly the blocks of the range lose their locations. */
  lemma {:induction false} DropRangeKeeps(x: Index, inode: uint64, lo: uint32, hi: uint32)
    requires Inv(x)
    ensures var y := DropRange(x, inode, lo, hi);
            Inv(y) && forall b :: Of(y, b) == if InRange(inode, lo, hi, b) then [] else Of(x, b)
    decreases hi
  {
    hide Inv, RemoveBlock, MakeBlockId;
    if lo < hi {
      DropRangeKeeps(x, inode, lo, hi - 1);
      var mid, last := DropRange(x, inode, lo, hi - 1), MakeBlockId(inode, hi - 1);
      RemoveBlockKeeps(mid, last);
      forall b ensures InRange(inode, lo, hi, b) <==> InRange(inode, lo, hi - 1, b) || b == last {
        if i: uint32 :| lo <= i < hi && MakeBlockId(inode, i) == b {
          assert i < hi - 1 ==> InRange(inode, lo, hi - 1, b);
        }
      }
    }
  }

  /** The blocks below the range keep their ids to themselves if and only if the range ends within 24 bits. */
  lemma KeptBlocksSurvive(inode: uint64, lo: uint32, hi: uint32)
    requires 0 < lo < hi
    ensures (forall i: uint32 | i < lo && i < INDEX_SPAN :: !InRange(inode, lo, hi, MakeBlockId(inode, i))) <==> hi <= INDEX_SPAN
  {
    if hi <= INDEX_SPAN {
      forall i: uint32 | i < lo ensures !InRange(inode, lo, hi, MakeBlockId(inode, i)) {
        forall j: uint32 | lo <= j < hi ensures MakeBlockId(inode, j) != MakeBlockId(inode, i) {
          BlockIdsCollide(inode, i, inode, j);
        }
      }
    } else {
      var j: uint32 := if lo <= INDEX_SPAN then INDEX_SPAN else lo;
      var i: uint32 := j % 0x100_0000;
      BlockIdsCollide(inode, i, inode, j);
      assert MakeBlockId(inode, j) == MakeBlockId(inode, i);
      assert InRange(inode, lo, hi, MakeBlockId(inode, i));
    }
  }

  /** What the block arithmetic of a file needs: fields within their machine words, a real block size. */
  predicate Measured(inode: Inode)
  {
    inode.id < 0x1_0000_0000_0000_0000 && inode.size < 0x1_0000_0000_0000_0000 && 0 < inode.blockSize < 0x1_0000_0000_0000_0000
  }

  function DropFile(x: Index, inode: Inode): Index
    requires Measured(inode)
  {
    if inode.isDir then x else DropRange(x, inode.id, 0, GetBlockCount(inode.size, inode.blockSize))
  }

  function Truncate(x: Index, inode: Inode, size: uint64): Index
    requires Measured(inode)
  {
    if size < inode.size then
      DropRange(x, inode.id, GetBlockCount(size, inode.blockSize), GetBlockCount(inode.size, inode.blockSize))
    else x
  }

  /** Within the id space a block lies in the range exactly if it is one of the file's, with an index in between. */
  lemma RangeIsSlice(inode: uint64, lo: uint32, hi: uint32, b: uint64)
    requires inode < INODE_SPAN && hi <= INDEX_SPAN
    ensures InRange(inode, lo, hi, b) <==> GetInodeId(b) == inode && lo <= GetBlockIndex(b) < hi
  {
    BlockIdsCover(b);
    forall i: uint32 | lo <= i < hi && MakeBlockId(inode, i) == b ensures GetInodeId(b) == inode && GetBlockIndex(b) == i {
      BlockIdRoundTrip(inode, i);
    }
  }

  /**
   * Truncating a file drops exactly the locations of its blocks past the new size, and deleting it
   * those of all its blocks; every other block keeps its locations.
   */
  lemma TruncateExactly(x: Index, inode: Inode, size: uint64, b: uint64)
    requires Inv(x) && Measured(inode) && !inode.isDir && inode.id < INODE_SPAN
    requires GetBlockCount(inode.size, inode.blockSize) == Ceiling(inode.size, inode.blockSize) <= INDEX_SPAN
    ensures Inv(Truncate(x, inode, size)) && Inv(DropFile(x, inode))
    ensures Of(Truncate(x, inode, size), b) ==
            if GetInodeId(b) == inode.id && Ceiling(size, inode.blockSize) <= GetBlockIndex(b) < Ceiling(inode.size, inode.blockSize)
            then [] else Of(x, b)
    ensures Of(DropFile(x, inode), b) ==
            if GetInodeId(b) == inode.id && GetBlockIndex(b) < Ceiling(inode.size, inode.blockSize) then [] else Of(x, b)
  {
    hide Inv, GetBlockCount, Ceiling, InRange, GetInodeId, GetBlockIndex;
    var before, after := GetBlockCount(inode.size, inode.blockSize), GetBlockCount(size, inode.blockSize);
    DropRangeKeeps(x, inode.id, 0, before);
    RangeIsSlice(inode.id, 0, before, b);
    CeilingGrows(size, inode.size, inode.blockSize);
    if size < inode.size {
      DropRangeKeeps(x, inode.id, after, before);
      RangeIsSlice(inode.id, after, before, b);
    }
  }

  /** A smaller file has no more blocks, and its count is exact if the larger one's is. */
  lemma CeilingGrows(size: uint64, larger: uint64, blockSize: uint64)
    requires blockSize > 0
    ensures size <= larger ==> Ceiling(size, blockSize) <= Ceiling(larger, blockSize)
    ensures larger <= size ==> Ceiling(larger, blockSize) <= Ceiling(size, blockSize)
    ensures size < larger && GetBlockCount(larger, blockSize) == Ceiling(larger, blockSize) ==>
              GetBlockCount(size, blockSize) == Ceiling(size, blockSize)
  {
    hide GetBlockCount;
    QuotientGrows(size + blockSize - 1, larger + blockSize - 1, blockSize);
    QuotientGrows(larger + blockSize - 1, size + blockSize - 1, blockSize);
    CountIsCeiling(size, blockSize);
    CountIsCeiling(larger, blockSize);
  }

  lemma QuotientGrows(x: nat, y: nat, d: nat)
    requires d > 0
    ensures x <= y ==> x / d <= y / d
  {
    var p, q := x / d, y / d;
    Multiples(q, p, d);
    assert x == p * d + x % d && y == q * d + y % d;
  }

  lemma Multiples(q: nat, p: nat, d: nat)
    ensures q < p ==> q * d + d <= p * d
  {
    if q < p { NextMultiple(q, p, d); }
  }

  // ---------- The object ----------

  lemma {:induction false} ReleaseSnoc(held: map<WorkerId, set<BlockId>>, locs: seq<Location>, i: nat, b: BlockId)
    requires i < |locs|
    ensures ReleaseAll(held, locs[..i + 1], b) == Release(ReleaseAll(held, locs[..i], b), locs[i].worker, b)
    decreases i
  {
    hide Release;
    if i == 0 {
      assert locs[..1] == [locs[0]] && [locs[0]][1..] == [] && locs[..0] == [];
    } else {
      assert locs[..i + 1][1..] == locs[1..][..i] && locs[..i][1..] == locs[1..][..i - 1];
      ReleaseSnoc(Release(held, locs[0].worker, b), locs[1..], i - 1, b);
    }
  }

  function AllOf(x: Index, ids: seq<BlockId>): seq<Location>
  {
    if ids == [] then [] else AllOf(x, ids[..|ids| - 1]) + Of(x, ids[|ids| - 1])
  }

  /** One id after the other: the answer for two lists is the answer for the one and then for the other. */
  lemma {:induction false} AllOfConcat(x: Index, a: seq<BlockId>, b: seq<BlockId>)
    ensures AllOf(x, a + b) == AllOf(x, a) + AllOf(x, b)
    decreases |b|
  {
    if b == [] {
      assert a + b == a;
    } else {
      assert (a + b)[..|a + b| - 1] == a + b[..|b| - 1] && (a + b)[|a + b| - 1] == b[|b| - 1];
      AllOfConcat(x, a, b[..|b| - 1]);
    }
  }

  lemma AllOfOne(x: Index, b: BlockId)
    ensures AllOf(x, [b]) == Of(x, b) && AllOf(x, []) == []
  {
    assert [b][..0] == [];
  }

  /** The answer holds exactly the locations of the requested blocks. */
  lemma {:induction false} AllOfMembers(x: Index, ids: seq<BlockId>, l: Location)
    ensures l in AllOf(x, ids) <==> exists b :: b in ids && l in Of(x, b)
    decreases |ids|
  {
    if ids != [] {
      assert ids == ids[..|ids| - 1] + [ids[|ids| - 1]];
      AllOfMembers(x, ids[..|ids| - 1], l);
    }
  }

  class BlockMaster {
    var locations: map<BlockId, seq<Location>>
    var held: map<WorkerId, set<BlockId>>

    constructor ()
      ensures Valid() && View() == Index(map[], map[])
    {
      locations, held := map[], map[];
      new;
      forall b, w ensures PairOk(View(), b, w) { }
    }

    function View(): Index
      reads this
    {
      Index(locations, held)
    }

    ghost predicate Valid()
      reads this
    {
      Inv(View())
    }

    /** The locations of the requested blocks, in the order of the request. */
    method GetBlockLocations(ids: seq<BlockId>) returns (out: seq<Location>)
      ensures out == AllOf(View(), ids)
    {
      out := [];
      for i := 0 to |ids|
        invariant out == AllOf(View(), ids[..i])
      {
        assert ids[..i + 1][..i] == ids[..i];
        if ids[i] in locations { out := out + locations[ids[i]]; }
      }
      assert ids[..|ids|] == ids;
    }

    method AddBlockLocation(loc: Location)
      requires Valid()
      modifies this
      ensures Valid() && View() == Add(old(View()), loc)
    {
      hide Inv;
      AddKeeps(View(), loc);
      var locs := if loc.block in locations then locations[loc.block] else [];
      for i := 0 to |locs|
        invariant View() == old(View())
        invariant At(locs, loc.worker) == match At(locs[i..], loc.worker) { case None => None case Some(k) => Some(k + i) }
      {
        assert locs[i..][1..] == locs[i + 1..];
        if locs[i].worker == loc.worker {
          locations := locations[loc.block := locs[i := locs[i].(tier := loc.tier)]];
          return;
        }
      }
      locations := locations[loc.block := locs + [loc]];
      held := held[loc.worker := (if loc.worker in held then held[loc.worker] else {}) + {loc.block}];
    }

    /** Erases the worker's entries from one list, and the list if nothing is left. */
    method UnlistWorker(b: BlockId, w: WorkerId)
      modifies this`locations
      ensures locations == Unlist(old(locations), b, w)
    {
      if b in locations {
        var rest := Without(locations[b], w);
        locations := if rest == [] then locations - {b} else locations[b := rest];
      }
    }

    method RemoveBlockLocation(b: BlockId, w: WorkerId)
      requires Valid()
      modifies this
      ensures Valid() && View() == Remove(old(View()), b, w)
    {
      hide Inv;
      RemoveKeeps(View(), b, w);
      UnlistWorker(b, w);
      if w in held { held := held[w := held[w] - {b}]; }
    }

    method RemoveWorkerBlocks(w: WorkerId)
      requires Valid()
      modifies this
      ensures Valid() && View() == RemoveWorker(old(View()), w)
    {
      hide Inv, Purged, Unlist;
      RemoveWorkerKeeps(View(), w);
      if w !in held { return; }
      var todo := held[w];
      PurgeNone(locations, w);
      assert held[w] - todo == {};
      while todo != {}
        invariant held == old(held) && todo <= held[w]
        invariant locations == Purged(old(locations), held[w] - todo, w)
        decreases |todo|
      {
        var b :| b in todo;
        PurgeOneMore(old(locations), held[w] - todo, b, w);
        UnlistWorker(b, w);
        assert held[w] - (todo - {b}) == held[w] - todo + {b};
        todo := todo - {b};
      }
      assert held[w] - todo == held[w];
      held := held - {w};
    }

    method RemoveBlockEverywhere(b: BlockId)
      requires Valid()
      modifies this
      ensures Valid() && View() == RemoveBlock(old(View()), b)
    {
      hide Inv, ReleaseAll;
      RemoveBlockKeeps(View(), b);
      if b !in locations { return; }
      var locs := locations[b];
      NothingReleased(held, locs, b);
      for i := 0 to |locs|
        invariant locations == old(locations) && held == ReleaseAll(old(held), locs[..i], b)
      {
        ReleaseSnoc(old(held), locs, i, b);
        var w := locs[i].worker;
        if w in held { held := held[w := held[w] - {b}]; }
      }
      locations := locations - {b};
    }
  }

  lemma NothingReleased(held: map<WorkerId, set<BlockId>>, locs: seq<Location>, b: BlockId)
    ensures ReleaseAll(held, locs[..0], b) == held && locs[..|locs|] == locs
  {
  }
}

/** The two operations of the file system master that clean up block locations before changing the tree. */
module FileMasters {
  import opened Common
  import opened BlockIds
  import opened BlockMasters
  import opened NamespaceTree
  import opened NamespaceStore
  import opened NamespaceOps
  import NamespaceSafety
  import opened Paths
  import opened InodeTrees

  /** A block of the file, as its size tells. */
  predicate OwnBlock(inode: Inode, b: uint64)
    requires Measured(inode)
  {
    GetInodeId(b) == inode.id && GetBlockIndex(b) < Ceiling(inode.size, inode.blockSize)
  }

  /** The block arithmetic of the file is exact. */
  predicate Countable(inode: Inode)
  {
    Measured(inode) && inode.id < INODE_SPAN && GetBlockCount(inode.size, inode.blockSize) == Ceiling(inode.size, inode.blockSize) <= INDEX_SPAN
  }

  ghost predicate KeepsLocations(x: Index, y: Index, inode: Inode)
    requires Measured(inode)
  {
    forall b: uint64 | OwnBlock(inode, b) :: Of(y, b) == Of(x, b)
  }

  ghost predicate Unlocated(x: Index, inode: Inode)
    requires Measured(inode)
  {
    forall b: uint64 | OwnBlock(inode, b) :: Of(x, b) == []
  }

  /** The index after a deletion was asked for, whether or not it then succeeds. */
  ghost function Cleaned(x: Index, ns: Nodes, path: seq<Text>): Index
    requires forall d | d in ns :: Measured(ns[d])
  {
    var found := Walk(ns, ROOT, path);
    if found.Some? && found.value in ns then DropFile(x, ns[found.value]) else x
  }

  /** A deletion that fails leaves its target in the store; otherwise a file that is asked to be deleted is gone. */
  lemma TargetRemains(s: Sys, ns: Nodes, path: seq<Text>, recursive: bool, env: Env, d: InodeId)
    requires NamespaceSafety.Inv(s, ns) && d in ns && !ns[d].isDir && Walk(ns, ROOT, path) == Some(d)
    ensures d in DeleteStep(s, path, recursive, env).sys.store.inodes <==> !env.commitOk(0)
  {
    hide DeleteStep, Walk, Rooted;
    NamespaceSafety.DeleteKeeps(s, ns, path, recursive, env);
    HasRoot(ns);
    assert NodeOk(ns, d) && NodeAgrees(s.store, ns, d) && NodeOk(ns, ROOT);
    WalkStays(ns, ROOT);
    forall n ensures Walk(ns, ROOT, path + [n]) == None { WalkSnoc(ns, ROOT, path, n); }
    var o := DeleteStep(s, path, recursive, env);
    if o.status == Ok {
      assert NodeAgrees(o.sys.store, DropSubtree(ns, d), d);
      WalkStays(ns, d);
      assert d in Subtree(ns, d);
    }
  }

  /**
   * After a deletion was asked for, a file that still exists has kept its block locations if and
   * only if it was not the target, or had none.  It can be the target only if the commit failed.
   */
  lemma DeleteSparesLocations(x: Index, s: Sys, ns: Nodes, path: seq<Text>, recursive: bool, env: Env, d: InodeId)
    requires BlockMasters.Inv(x) && NamespaceSafety.Inv(s, ns) && (forall c | c in ns :: Measured(ns[c]) && (!ns[c].isDir ==> Countable(ns[c])))
    requires d in ns && !ns[d].isDir && d in DeleteStep(s, path, recursive, env).sys.store.inodes
    ensures KeepsLocations(x, Cleaned(x, ns, path), ns[d]) <==> Walk(ns, ROOT, path) != Some(d) || Unlocated(x, ns[d])
    ensures Walk(ns, ROOT, path) == Some(d) ==> !env.commitOk(0)
  {
    hide DeleteStep, Walk, Rooted, BlockMasters.Inv, Ceiling, GetBlockCount, GetInodeId, GetBlockIndex, DropFile;
    var found := Walk(ns, ROOT, path);
    if found == Some(d) { TargetRemains(s, ns, path, recursive, env, d); }
    if found.Some? && found.value in ns {
      var t := found.value;
      if ns[t].isDir { DirectoryHasNone(x, ns[t]); }
      assert NodeOk(ns, t) && NodeOk(ns, d);
      forall b: uint64
        ensures Of(Cleaned(x, ns, path), b) == if !ns[t].isDir && OwnBlock(ns[t], b) then [] else Of(x, b)
      {
        if !ns[t].isDir { TruncateExactly(x, ns[t], 0, b); }
      }
    }
  }

  lemma DirectoryHasNone(x: Index, inode: Inode)
    requires Measured(inode) && inode.isDir
    ensures DropFile(x, inode) == x
  {
  }

  class FileSystemMaster {
    const tree: InodeTree
    const blocks: BlockMaster

    constructor (tree: InodeTree, blocks: BlockMaster)
      ensures this.tree == tree && this.blocks == blocks
    {
      this.tree, this.blocks := tree, blocks;
    }

    /** The tree shows this namespace, and its files can be measured in blocks. */
    ghost predicate Ready(ns: Nodes)
      reads tree, tree.store, blocks
    {
      tree.store != null && tree.Shows(ns) && blocks.Valid() && forall d | d in ns :: Measured(ns[d])
    }

    method DropBlocks(inode: uint64, lo: uint32, hi: uint32)
      requires blocks.Valid()
      modifies blocks
      ensures blocks.Valid() && blocks.View() == DropRange(old(blocks.View()), inode, lo, hi)
    {
      hide RemoveBlock, BlockMasters.Inv;
      var i: uint32 := lo;
      while i < hi
        invariant lo <= i && (if lo <= hi then i <= hi else i == lo)
        invariant blocks.Valid() && blocks.View() == DropRange(old(blocks.View()), inode, lo, i)
        decreases hi - i
      {
        blocks.RemoveBlockEverywhere(MakeBlockId(inode, i));
        i := i + 1;
      }
    }

    /** The blocks of a file go first, whether or not the deletion then succeeds. */
    method DeleteFile(path: Text, recursive: bool, env: Env, ghost ns: Nodes) returns (status: Status)
      requires Ready(ns)
      modifies tree`dirs, tree.store, blocks
      ensures blocks.Valid()
      ensures blocks.View() == Cleaned(old(blocks.View()), ns, Components(path))
      ensures var o := DeleteStep(old(tree.Live()), Components(path), recursive, env);
              tree.Live() == o.sys && status == o.status
    {
      var found, inode := tree.GetInodeByPath(path, ns);
      if found == Ok && !inode.isDir {
        DropBlocks(inode.id, 0, GetBlockCount(inode.size, inode.blockSize));
      }
      assert NamespaceSafety.Sound(tree.Live());
      status := tree.Delete(path, recursive, env);
    }

    method TruncateFile(path: Text, size: uint64, env: Env, ghost ns: Nodes) returns (status: Status)
      requires Ready(ns)
      modifies tree`dirs, tree.store, blocks
      ensures blocks.Valid()
      ensures var found := Walk(ns, ROOT, Components(path));
              found.None? || (found.value in ns && ns[found.value].isDir) ==>
                && status == (if found.Some? then InvalidArgument else NotFound)
                && tree.Live() == old(tree.Live()) && blocks.View() == old(blocks.View())
      ensures var found := Walk(ns, ROOT, Components(path));
              found.Some? && found.value in ns && !ns[found.value].isDir ==>
                && blocks.View() == Truncate(old(blocks.View()), ns[found.value], size)
                && var o := UpdateSizeStep(old(tree.Live()), found.value, size, env);
                   tree.Live() == o.sys && status == o.status
    {
      var found, inode := tree.GetInodeByPath(path, ns);
      if found != Ok { return found; }
      if inode.isDir { return InvalidArgument; }
      if size < inode.size {
        DropBlocks(inode.id, GetBlockCount(size, inode.blockSize), GetBlockCount(inode.size, inode.blockSize));
      }
      status := tree.UpdateSize(inode.id, size, env);
    }
  }
}
