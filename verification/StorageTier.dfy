/**
 * One storage tier: blocks with a fixed capacity, the bytes they hold, and the used-bytes counter.
 * A disk block is a file that a write may extend past the block's capacity; a memory block is not.
 */
module StorageTiers {
  import opened Common
  import opened CachePolicy
  import opened CacheManagers

  datatype TierType = Memory | SSD | HDD

  datatype Block = Block(capacity: nat, data: seq<byte>)

  datatype Tier = Tier(kind: TierType, capacity: nat, used: int, blocks: map<BlockId, Block>)

  function Zeros(n: nat): seq<byte>
  {
    seq(n, _ => 0)
  }

  /** `bytes` with `buf` laid over it at `offset`; what falls outside is ignored. */
  function Patch(bytes: seq<byte>, offset: nat, buf: seq<byte>): (r: seq<byte>)
    ensures |r| == |bytes|
  {
    seq(|bytes|, i requires 0 <= i < |bytes| => if offset <= i < offset + |buf| then buf[i - offset] else bytes[i])
  }

  /** `pwrite` on a file: a write past the end extends it, filling any gap with zeros. */
  function FileWrite(data: seq<byte>, offset: nat, buf: seq<byte>): (r: seq<byte>)
    ensures |r| >= |data|
  {
    if buf == [] then data else
    var end := offset + |buf|;
    seq(if end > |data| then end else |data|,
        i requires 0 <= i => if offset <= i < end then buf[i - offset] else if i < |data| then data[i] else 0)
  }

  /** The bytes of a block, as far as its capacity goes. */
  function Contents(b: Block): seq<byte>
    requires b.capacity <= |b.data|
  {
    b.data[..b.capacity]
  }

  /** Whatever extends past the capacity, a file write changes the block's own bytes as a plain patch does. */
  lemma FileWritePatches(b: Block, offset: nat, buf: seq<byte>)
    requires b.capacity <= |b.data|
    ensures FileWrite(b.data, offset, buf)[..b.capacity] == Patch(Contents(b), offset, buf)
  {
  }

  // ---------- Accounting ----------

  function Caps(blocks: map<BlockId, Block>): map<BlockId, nat>
  {
    map id | id in blocks :: blocks[id].capacity
  }

  /** The used-bytes counter is the sum of the block capacities, and they fit the tier. */
  ghost predicate TierInv(t: Tier)
  {
    && (forall id | id in t.blocks :: t.blocks[id].capacity <= |t.blocks[id].data|)
    && t.used == Sum(Caps(t.blocks)) <= t.capacity
  }

  function Available(t: Tier): int
  {
    t.capacity - t.used
  }

  predicate CanAllocate(t: Tier, id: BlockId, size: nat)
  {
    id !in t.blocks && t.used + size <= t.capacity
  }

  function Allocated(t: Tier, id: BlockId, size: nat): Tier
  {
    t.(used := t.used + size, blocks := t.blocks[id := Block(size, Zeros(size))])
  }

  function Removed(t: Tier, id: BlockId): Tier
  {
    if id !in t.blocks then t
    else t.(used := t.used - t.blocks[id].capacity, blocks := t.blocks - {id})
  }

  predicate CanWrite(t: Tier, id: BlockId, offset: nat, buf: seq<byte>)
  {
    id in t.blocks && (t.kind == Memory ==> offset + |buf| <= t.blocks[id].capacity)
  }

  function Written(t: Tier, id: BlockId, offset: nat, buf: seq<byte>): Tier
    requires id in t.blocks
  {
    t.(blocks := t.blocks[id := t.blocks[id].(data := FileWrite(t.blocks[id].data, offset, buf))])
  }

  lemma AllocatedKeeps(t: Tier, id: BlockId, size: nat)
    requires TierInv(t) && CanAllocate(t, id, size)
    ensures TierInv(Allocated(t, id, size))
    ensures Contents(Allocated(t, id, size).blocks[id]) == Zeros(size)
  {
    var after := Allocated(t, id, size);
    assert Caps(after.blocks) == Caps(t.blocks)[id := size];
    SumPut(Caps(t.blocks), id, size);
    assert Caps(t.blocks) - {id} == Caps(t.blocks);
  }

  lemma RemovedKeeps(t: Tier, id: BlockId)
    requires TierInv(t)
    ensures TierInv(Removed(t, id))
  {
    if id in t.blocks {
      SumTake(Caps(t.blocks), id);
      assert Caps(Removed(t, id).blocks) == Caps(t.blocks) - {id};
    }
  }

  lemma WrittenKeeps(t: Tier, id: BlockId, offset: nat, buf: seq<byte>)
    requires TierInv(t) && id in t.blocks
    ensures TierInv(Written(t, id, offset, buf))
    ensures Contents(Written(t, id, offset, buf).blocks[id]) == Patch(Contents(t.blocks[id]), offset, buf)
  {
    assert Caps(Written(t, id, offset, buf).blocks) == Caps(t.blocks);
    FileWritePatches(t.blocks[id], offset, buf);
  }

  /** Importing exported bytes reproduces the block's contents. */
  lemma ImportRestores(t: Tier, id: BlockId, bytes: seq<byte>)
    requires TierInv(t) && CanAllocate(t, id, |bytes|)
    ensures var after := Written(Allocated(t, id, |bytes|), id, 0, bytes);
            TierInv(after) && Contents(after.blocks[id]) == bytes && after.used == t.used + |bytes|
  {
    AllocatedKeeps(t, id, |bytes|);
    WrittenKeeps(Allocated(t, id, |bytes|), id, 0, bytes);
    assert Patch(Zeros(|bytes|), 0, bytes) == bytes;
  }

  // ---------- The object ----------

  class StorageTier {
    const kind: TierType
    const capacity: nat
    var used: int
    var blocks: map<BlockId, Block>

    function Value(): Tier
      reads this
    {
      Tier(kind, capacity, used, blocks)
    }

    constructor (kind: TierType, capacity: nat)
      ensures Value() == Tier(kind, capacity, 0, map[]) && TierInv(Value())
    {
      this.kind, this.capacity, used, blocks := kind, capacity, 0, map[];
      new;
      assert Caps(blocks) == map[];
    }

    method AllocateBlock(id: BlockId, size: nat) returns (status: Status)
      modifies this
      ensures status == if id in old(blocks) then AlreadyExists
                        else if old(used) + size > capacity then ResourceExhausted else Ok
      ensures Value() == if status == Ok then Allocated(old(Value()), id, size) else old(Value())
    {
      if id in blocks { return AlreadyExists; }
      if used + size > capacity { return ResourceExhausted; }
      blocks := blocks[id := Block(size, Zeros(size))];
      used := used + size;
      return Ok;
    }

    /** Memory reads stop at the capacity, disk reads at the end of the file. */
    method ReadBlock(id: BlockId, size: nat, offset: nat) returns (status: Status, buf: seq<byte>)
      requires TierInv(Value()) && (kind == Memory && id in blocks ==> offset <= blocks[id].capacity)
      ensures status == if id in blocks then Ok else NotFound
      ensures status == Ok && offset + size <= blocks[id].capacity ==> buf == Contents(blocks[id])[offset..offset + size]
      ensures status == Ok ==>
                var end := if kind == Memory then blocks[id].capacity else |blocks[id].data|;
                buf == blocks[id].data[Min(offset, end)..Min(offset + size, end)]
    {
      if id !in blocks { return NotFound, []; }
      var b := blocks[id];
      var end := if kind == Memory then b.capacity else |b.data|;
      if offset + size <= b.capacity { assert Contents(b)[offset..offset + size] == b.data[offset..offset + size]; }
      return Ok, b.data[Min(offset, end)..Min(offset + size, end)];
    }

    method WriteBlock(id: BlockId, buf: seq<byte>, offset: nat) returns (status: Status)
      requires TierInv(Value())
      modifies this
      ensures status == if id !in old(blocks) then NotFound else if CanWrite(old(Value()), id, offset, buf) then Ok else InvalidArgument
      ensures Value() == if status == Ok then Written(old(Value()), id, offset, buf) else old(Value())
    {
      if id !in blocks { return NotFound; }
      var b := blocks[id];
      if kind == Memory && offset + |buf| > b.capacity { return InvalidArgument; }
      blocks := blocks[id := b.(data := FileWrite(b.data, offset, buf))];
      return Ok;
    }

    method RemoveBlock(id: BlockId) returns (status: Status)
      modifies this
      ensures status == if id in old(blocks) then Ok else NotFound
      ensures Value() == Removed(old(Value()), id)
    {
      if id !in blocks { return NotFound; }
      used := used - blocks[id].capacity;
      blocks := blocks - {id};
      return Ok;
    }

    method ExportBlock(id: BlockId) returns (status: Status, data: seq<byte>)
      requires TierInv(Value())
      ensures status == if id in blocks then Ok else NotFound
      ensures status == Ok ==> data == Contents(blocks[id])
    {
      if id !in blocks { return NotFound, []; }
      return Ok, blocks[id].data[..blocks[id].capacity];
    }

    method ImportBlock(id: BlockId, data: seq<byte>) returns (status: Status)
      requires TierInv(Value())
      modifies this
      ensures status == if id in old(blocks) then AlreadyExists
                        else if old(used) + |data| > capacity then ResourceExhausted else Ok
      ensures Value() == if status == Ok then Written(Allocated(old(Value()), id, |data|), id, 0, data) else old(Value())
    {
      status := AllocateBlock(id, |data|);
      if status != Ok { return; }
      AllocatedKeeps(old(Value()), id, |data|);
      status := WriteBlock(id, data, 0);
    }
  }
}
