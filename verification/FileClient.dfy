/**
 * Reading and writing whole files through the client: byte ranges are split over composite block
 * ids, and each piece goes to the worker as one call.  The worker is its memory tier while nothing
 * is evicted (`Blocks`); replies of the master and the network are parameters.
 */
module FileClients {
  import opened Common
  import opened BlockIds
  import opened CachePolicy
  import opened StorageTiers

  const BLOCK_SIZE: nat := 0x400_0000

  /** The blocks a worker holds, and those whose location the master knows. */
  datatype Files = Files(blocks: map<BlockId, seq<byte>>, reported: set<BlockId>)

  /** What becomes of one call to the worker. */
  datatype Delivery = Delivered | Lost | ReplyLost

  /** For every round of a loop: whether the location lookups succeed, and what becomes of the worker call. */
  datatype Net = Net(lookupOk: nat -> bool, lookupFirstOk: nat -> bool, call: nat -> Delivery)

  ghost predicate Reliable(net: Net)
  {
    forall i :: net.lookupOk(i) && net.lookupFirstOk(i) && net.call(i) == Delivered
  }

  /** The file an operation works on: known, just created (with or without a worker), or refused by the master. */
  datatype Target = Known(inode: uint64, size: nat) | Created(inode: uint64, placed: bool) | Refused(status: Status)

  function IndexOf(at: nat): uint32 { at / BLOCK_SIZE % 0x1_0000_0000 }

  function BlockAt(inode: uint64, at: nat): uint64 { MakeBlockId(inode, IndexOf(at)) }

  function RoomAt(at: nat): (n: nat)
    ensures 0 < n <= BLOCK_SIZE
  {
    BLOCK_SIZE - at % BLOCK_SIZE
  }

  // ---------- The worker ----------

  /** The worker's WriteBlock: make sure the block exists, write, and report the location. */
  function PutBlock(f: Files, id: BlockId, data: seq<byte>, offset: nat): (Files, Status)
  {
    var bytes := if id in f.blocks then f.blocks[id] else Zeros(|data|);
    if offset + |data| <= |bytes| then
      (Files(f.blocks[id := Patch(bytes, offset, data)], f.reported + {id}), Ok)
    else (f.(blocks := f.blocks[id := bytes]), InvalidArgument)
  }

  /** A memory read returns what the block has and leaves the rest of the zeroed buffer as it is. */
  function GetBlock(bytes: seq<byte>, offset: nat, length: nat): (r: seq<byte>)
    requires offset <= |bytes|
    ensures |r| == length
  {
    if offset + length <= |bytes| then bytes[offset..offset + length]
    else bytes[offset..] + Zeros(length - (|bytes| - offset))
  }

  // ---------- Writing ----------

  /** `written` is left unset when the operation returns early with an error of the master. */
  datatype WriteResult = WriteResult(files: Files, status: Status, written: Option<nat>)

  function PieceAt(buf: seq<byte>, offset: nat, done: nat): (r: seq<byte>)
    requires done < |buf|
    ensures 0 < |r| <= RoomAt(offset + done) && done + |r| <= |buf|
  {
    buf[done..done + Min(|buf| - done, RoomAt(offset + done))]
  }

  /** Whether some worker is known for the block at `at`. */
  predicate HasWorker(f: Files, inode: uint64, at: nat, placed: bool)
  {
    BlockAt(inode, at) in f.reported || placed || (IndexOf(at) > 0 && MakeBlockId(inode, 0) in f.reported)
  }

  /** The lookups of one round: the block's own location and, for want of any worker, that of block 0. */
  predicate LookupsOk(f: Files, inode: uint64, at: nat, placed: bool, net: Net, i: nat)
  {
    net.lookupOk(i) && (BlockAt(inode, at) !in f.reported && !placed && IndexOf(at) > 0 ==> net.lookupFirstOk(i))
  }

  function WriteFrom(f: Files, inode: uint64, buf: seq<byte>, offset: nat, done: nat, placed: bool, net: Net, i: nat): (r: WriteResult)
    requires done <= |buf|
    decreases |buf| - done
  {
    if done == |buf| then WriteResult(f, Ok, Some(done)) else
    var at := offset + done;
    var piece := PieceAt(buf, offset, done);
    if !LookupsOk(f, inode, at, placed, net, i) then WriteResult(f, IOError, None)
    else if !HasWorker(f, inode, at, placed) then WriteResult(f, Unavailable, Some(done))
    else if net.call(i) == Lost then WriteResult(f, Ok, Some(done))
    else
      var (g, status) := PutBlock(f, BlockAt(inode, at), piece, at % BLOCK_SIZE);
      if net.call(i) == ReplyLost || status != Ok then WriteResult(g, Ok, Some(done))
      else WriteFrom(g, inode, buf, offset, done + |piece|, placed, net, i + 1)
  }

  // ---------- Reading ----------

  datatype ReadResult = ReadResult(status: Status, data: Option<seq<byte>>)

  /** The part of the worker read that the memory tier can serve: the offset lies within the block. */
  predicate Readable(f: Files, inode: uint64, at: nat)
  {
    BlockAt(inode, at) in f.blocks ==> at % BLOCK_SIZE <= |f.blocks[BlockAt(inode, at)]|
  }

  function ReadFrom(f: Files, inode: uint64, offset: nat, readable: nat, got: seq<byte>, net: Net, i: nat): (r: ReadResult)
    requires |got| <= readable && (|got| < readable ==> Readable(f, inode, offset + |got|))
    decreases readable - |got|
  {
    if |got| == readable then ReadResult(Ok, Some(got)) else
    var at := offset + |got|;
    var id := BlockAt(inode, at);
    var n := Min(readable - |got|, RoomAt(at));
    if !net.lookupOk(i) then ReadResult(IOError, None)
    else if id !in f.reported || net.call(i) != Delivered || id !in f.blocks then ReadResult(Ok, Some(got))
    else
      NextStartsBlock(at, n, readable - |got|);
      var more := got + GetBlock(f.blocks[id], at % BLOCK_SIZE, n);
      ReadFrom(f, inode, offset, readable, more, net, i + 1)
  }

  /** After a piece the position is the end of the range or the start of a block. */
  lemma NextStartsBlock(at: nat, n: nat, left: nat)
    requires n == Min(left, RoomAt(at))
    ensures n == left || (at + n) % BLOCK_SIZE == 0
  {
  }

  // ---------- What a stored file is ----------

  /** With more bytes the block index would no longer fit its 24 bits. */
  const MAX_FILE: nat := 0x4_0000_0000_0000

  ghost function Slice(bytes: seq<byte>, i: nat): (r: seq<byte>)
    ensures i * 0x400_0000 < |bytes| ==> |r| == Min(BLOCK_SIZE, |bytes| - i * 0x400_0000)
  {
    bytes[Min(i * 0x400_0000, |bytes|)..Min((i + 1) * 0x400_0000, |bytes|)]
  }

  ghost predicate HoldsBlock(f: Files, inode: uint64, bytes: seq<byte>, i: uint32)
  {
    var id := MakeBlockId(inode, i);
    if i * 0x400_0000 < |bytes| then id in f.blocks && f.blocks[id] == Slice(bytes, i) && id in f.reported
    else id !in f.blocks && id !in f.reported
  }

  /** The worker holds exactly these bytes of the file, block by block, and no block beyond them. */
  ghost predicate Stored(f: Files, inode: uint64, bytes: seq<byte>)
  {
    |bytes| <= MAX_FILE && forall i: uint32 {:trigger HoldsBlock(f, inode, bytes, i)} | i < 0x100_0000 :: HoldsBlock(f, inode, bytes, i)
  }

  /** Whatever the worker still has of the file is right. */
  ghost predicate Remains(f: Files, inode: uint64, bytes: seq<byte>)
  {
    |bytes| <= MAX_FILE && forall i: uint32 {:trigger MakeBlockId(inode, i)} |
      i < 0x100_0000 && MakeBlockId(inode, i) in f.blocks :: i * 0x400_0000 < |bytes| && f.blocks[MakeBlockId(inode, i)] == Slice(bytes, i)
  }

  /** The blocks of one file never belong to another. */
  lemma OtherBlock(inode: uint64, at: nat, i: uint32)
    requires at < MAX_FILE && i < 0x100_0000
    ensures IndexOf(at) == at / BLOCK_SIZE < 0x100_0000
    ensures MakeBlockId(inode, i) == BlockAt(inode, at) <==> i == IndexOf(at)
  {
    BlockIdsCollide(inode, i, inode, IndexOf(at));
  }

  // ---------- Reading returns a prefix, and all of it when nothing is missing ----------

  lemma SliceRead(bytes: seq<byte>, at: nat, n: nat)
    requires at + n <= |bytes| && 0 < n <= RoomAt(at)
    ensures var b := Slice(bytes, at / BLOCK_SIZE);
            at % BLOCK_SIZE + n <= |b| && b[at % BLOCK_SIZE..at % BLOCK_SIZE + n] == bytes[at..at + n]
  {
    var b, o := Slice(bytes, at / BLOCK_SIZE), at % BLOCK_SIZE;
    assert at == at / BLOCK_SIZE * 0x400_0000 + o;
    var read, want := b[o..o + n], bytes[at..at + n];
    forall k | 0 <= k < n ensures read[k] == want[k] {
    }
  }

  /** A block that is there serves its part of the range; in a stored file every block is there. */
  lemma ReadPiece(f: Files, inode: uint64, bytes: seq<byte>, at: nat, n: nat)
    requires Remains(f, inode, bytes) && at + n <= |bytes| && 0 < n <= RoomAt(at)
    ensures var id := BlockAt(inode, at);
            && (id in f.blocks ==> at % BLOCK_SIZE <= |f.blocks[id]| && GetBlock(f.blocks[id], at % BLOCK_SIZE, n) == bytes[at..at + n])
            && (Stored(f, inode, bytes) ==> id in f.blocks && id in f.reported)
  {
    hide Slice;
    OtherBlock(inode, at, IndexOf(at));
    assert Stored(f, inode, bytes) ==> HoldsBlock(f, inode, bytes, IndexOf(at));
    SliceRead(bytes, at, n);
  }

  lemma Adjoin(bytes: seq<byte>, from: nat, mid: nat, to: nat)
    requires from <= mid <= to <= |bytes|
    ensures bytes[from..mid] + bytes[mid..to] == bytes[from..to]
  {
  }

  lemma {:induction false} ReadsPrefix(f: Files, inode: uint64, offset: nat, readable: nat, got: seq<byte>, net: Net, i: nat, bytes: seq<byte>)
    requires Remains(f, inode, bytes) && offset + readable <= |bytes|
    requires |got| <= readable && (|got| < readable ==> Readable(f, inode, offset + |got|))
    requires got == bytes[offset..offset + |got|]
    ensures var r := ReadFrom(f, inode, offset, readable, got, net, i);
            && (r.data.Some? ==> var d := r.data.value;
                  && |got| <= |d| <= readable && d == bytes[offset..offset + |d|]
                  && (|d| < readable ==> d == got || (offset + |d|) % BLOCK_SIZE == 0))
            && (Reliable(net) && Stored(f, inode, bytes) ==> r == ReadResult(Ok, Some(bytes[offset..offset + readable])))
    decreases readable - |got|
  {
    hide Remains, Stored, GetBlock, BlockAt;
    if |got| < readable {
      var at := offset + |got|;
      var id := BlockAt(inode, at);
      var n := Min(readable - |got|, RoomAt(at));
      ReadPiece(f, inode, bytes, at, n);
      if id in f.blocks {
        NextStartsBlock(at, n, readable - |got|);
        Adjoin(bytes, offset, at, at + n);
        var more := got + GetBlock(f.blocks[id], at % BLOCK_SIZE, n);
        ReadsPrefix(f, inode, offset, readable, more, net, i + 1, bytes);
      }
    }
  }

  // ---------- Writing over what is there, and past its end ----------

  /** One piece that lies within the stored bytes replaces exactly those bytes. */
  lemma PieceOverwrites(f: Files, inode: uint64, bytes: seq<byte>, at: nat, piece: seq<byte>)
    requires Stored(f, inode, bytes) && 0 < |piece| <= RoomAt(at) && at + |piece| <= |bytes|
    ensures var (g, status) := PutBlock(f, BlockAt(inode, at), piece, at % BLOCK_SIZE);
            status == Ok && Stored(g, inode, Patch(bytes, at, piece))
  {
    var i := IndexOf(at);
    OtherBlock(inode, at, i);
    assert HoldsBlock(f, inode, bytes, i);
    var (g, status) := PutBlock(f, BlockAt(inode, at), piece, at % BLOCK_SIZE);
    var after := Patch(bytes, at, piece);
    forall j: uint32 | j < 0x100_0000 ensures HoldsBlock(g, inode, after, j) {
      assert HoldsBlock(f, inode, bytes, j);
      OtherBlock(inode, at, j);
      SlicePatched(bytes, at, piece, j);
    }
  }

  lemma SlicePatched(bytes: seq<byte>, at: nat, piece: seq<byte>, j: nat)
    requires 0 < |piece| <= RoomAt(at) && at + |piece| <= |bytes|
    ensures Slice(Patch(bytes, at, piece), j) ==
            if j == at / BLOCK_SIZE then Patch(Slice(bytes, j), at % BLOCK_SIZE, piece) else Slice(bytes, j)
  {
  }

  /** One piece right after the stored bytes extends them when they end with a full block. */
  lemma PieceExtends(f: Files, inode: uint64, bytes: seq<byte>, piece: seq<byte>)
    requires Stored(f, inode, bytes) && |bytes| % BLOCK_SIZE == 0 && 0 < |piece| <= BLOCK_SIZE && |bytes| + |piece| <= MAX_FILE
    ensures var (g, status) := PutBlock(f, BlockAt(inode, |bytes|), piece, |bytes| % BLOCK_SIZE);
            status == Ok && Stored(g, inode, bytes + piece)
  {
    var at := |bytes|;
    var i := IndexOf(at);
    OtherBlock(inode, at, i);
    assert HoldsBlock(f, inode, bytes, i);
    var (g, status) := PutBlock(f, BlockAt(inode, at), piece, at % BLOCK_SIZE);
    assert Patch(Zeros(|piece|), 0, piece) == piece;
    forall j: uint32 | j < 0x100_0000 ensures HoldsBlock(g, inode, bytes + piece, j) {
      assert HoldsBlock(f, inode, bytes, j);
      OtherBlock(inode, at, j);
      SliceExtended(bytes, piece, j);
    }
  }

  lemma SliceExtended(bytes: seq<byte>, piece: seq<byte>, j: nat)
    requires |bytes| % BLOCK_SIZE == 0 && 0 < |piece| <= BLOCK_SIZE
    ensures j * 0x400_0000 < |bytes| ==> Slice(bytes + piece, j) == Slice(bytes, j)
    ensures j == |bytes| / BLOCK_SIZE ==> Slice(bytes + piece, j) == piece
    ensures j > |bytes| / BLOCK_SIZE ==> j * 0x400_0000 >= |bytes + piece|
  {
  }

  lemma PatchJoin(bytes: seq<byte>, offset: nat, buf: seq<byte>, done: nat, n: nat)
    requires done + n <= |buf|
    ensures Patch(Patch(bytes, offset, buf[..done]), offset + done, buf[done..done + n]) == Patch(bytes, offset, buf[..done + n])
  {
  }

  lemma KnownBlock(f: Files, inode: uint64, bytes: seq<byte>, at: nat)
    requires Stored(f, inode, bytes) && at < |bytes|
    ensures BlockAt(inode, at) in f.reported && MakeBlockId(inode, 0) in f.reported
  {
    OtherBlock(inode, at, IndexOf(at));
    assert HoldsBlock(f, inode, bytes, IndexOf(at)) && HoldsBlock(f, inode, bytes, 0);
  }

  /** The block index has 24 bits, so positions repeat after the largest file. */
  lemma OffsetsWrap(inode: uint64, at: nat)
    ensures BlockAt(inode, at) == BlockAt(inode, at % MAX_FILE)
    ensures at % BLOCK_SIZE == at % MAX_FILE % BLOCK_SIZE && RoomAt(at) == RoomAt(at % MAX_FILE)
  {
    hide MakeBlockId;
    var q, m := at / 0x4_0000_0000_0000, at % 0x4_0000_0000_0000;
    assert at == q * 0x4_0000_0000_0000 + m && m % 0x400_0000 == m - m / 0x400_0000 * 0x400_0000;
    assert at / 0x400_0000 == q * 0x100_0000 + m / 0x400_0000;
    IndexMasked(at / 0x400_0000, m / 0x400_0000, q);
    BlockIdsCollide(inode, IndexOf(at), inode, IndexOf(m));
  }

  lemma IndexMasked(x: nat, r: nat, q: nat)
    requires x == q * 0x100_0000 + r && r < 0x100_0000
    ensures x % 0x1_0000_0000 % 0x100_0000 == r == r % 0x1_0000_0000 % 0x100_0000
  {
    var high := x / 0x1_0000_0000;
    assert x % 0x1_0000_0000 == (q - 0x100 * high) * 0x100_0000 + r;
  }

  lemma WrapsAfter(offset: nat, done: nat)
    requires offset % MAX_FILE + done < MAX_FILE
    ensures (offset + done) % MAX_FILE == offset % MAX_FILE + done
  {
  }

  /**
   * A write whose range, taken modulo the largest file, lies within the stored bytes replaces
   * exactly those bytes, over however many blocks; so past the largest file it starts over.
   */
  lemma {:induction false} WriteOverwrites(f: Files, inode: uint64, buf: seq<byte>, offset: nat, done: nat, placed: bool, net: Net, i: nat, bytes: seq<byte>)
    requires Reliable(net) && done <= |buf| && offset % MAX_FILE + |buf| <= |bytes|
    requires Stored(f, inode, Patch(bytes, offset % MAX_FILE, buf[..done]))
    ensures var r := WriteFrom(f, inode, buf, offset, done, placed, net, i);
            r.status == Ok && r.written == Some(|buf|) && Stored(r.files, inode, Patch(bytes, offset % MAX_FILE, buf))
    decreases |buf| - done
  {
    hide Stored, Patch, PutBlock, BlockAt;
    if done == |buf| {
      assert buf[..done] == buf;
    } else {
      var start := offset % MAX_FILE;
      var at, piece, now := offset + done, PieceAt(buf, offset, done), Patch(bytes, start, buf[..done]);
      StoredFits(f, inode, now);
      WrapsAfter(offset, done);
      OffsetsWrap(inode, at);
      KnownBlock(f, inode, now, start + done);
      PieceOverwrites(f, inode, now, start + done, piece);
      PatchJoin(bytes, start, buf, done, |piece|);
      var (g, _) := PutBlock(f, BlockAt(inode, at), piece, at % BLOCK_SIZE);
      assert net.lookupOk(i) && net.call(i) == Delivered;
      WriteOverwrites(g, inode, buf, offset, done + |piece|, placed, net, i + 1, bytes);
    }
  }

  lemma StoredFits(f: Files, inode: uint64, bytes: seq<byte>)
    requires Stored(f, inode, bytes)
    ensures |bytes| <= MAX_FILE
  {
  }

  /** `buf` laid over the bytes at `offset`, extending them if it runs past their end. */
  ghost function Overlay(bytes: seq<byte>, offset: nat, buf: seq<byte>): seq<byte>
    requires offset <= |bytes|
  {
    Patch(bytes, offset, buf) + if offset + |buf| > |bytes| then buf[|bytes| - offset..] else []
  }

  lemma OverlayLength(bytes: seq<byte>, offset: nat, buf: seq<byte>)
    requires offset <= |bytes|
    ensures |Overlay(bytes, offset, buf)| == if offset + |buf| > |bytes| then offset + |buf| else |bytes|
  {
  }

  lemma OverlayJoins(bytes: seq<byte>, offset: nat, buf: seq<byte>, done: nat, n: nat)
    requires offset <= |bytes| && done + n <= |buf|
    ensures var now, piece := Overlay(bytes, offset, buf[..done]), buf[done..done + n];
            && (offset + done + n <= |bytes| ==> Patch(now, offset + done, piece) == Overlay(bytes, offset, buf[..done + n]))
            && (offset + done >= |bytes| ==> now + piece == Overlay(bytes, offset, buf[..done + n]))
  {
    var now, piece, after := Overlay(bytes, offset, buf[..done]), buf[done..done + n], Overlay(bytes, offset, buf[..done + n]);
    if offset + done >= |bytes| {
      assert |now + piece| == |after|;
      forall k | 0 <= k < |after| ensures (now + piece)[k] == after[k] { }
    }
  }

  /** The start of a block that is not full, or the end of the bytes if the last block is full. */
  function LastStart(len: nat): nat { len - len % BLOCK_SIZE }

  /** How much of a write of `n` bytes at `offset` is taken: a block that is not full cannot grow. */
  function Taken(offset: nat, n: nat, len: nat): (k: nat)
    ensures k <= n
  {
    if offset + n <= len || len % BLOCK_SIZE == 0 then n
    else if offset < LastStart(len) then LastStart(len) - offset else 0
  }

  /** The piece that would have to grow the last block is refused. */
  lemma PieceRefused(f: Files, inode: uint64, bytes: seq<byte>, at: nat, piece: seq<byte>)
    requires Stored(f, inode, bytes) && |bytes| % BLOCK_SIZE != 0 && at / BLOCK_SIZE == |bytes| / BLOCK_SIZE
    requires at + |piece| > |bytes| && at < MAX_FILE
    ensures PutBlock(f, BlockAt(inode, at), piece, at % BLOCK_SIZE) == (f, InvalidArgument)
    ensures BlockAt(inode, at) in f.reported
  {
    hide Patch;
    OtherBlock(inode, at, IndexOf(at));
    assert HoldsBlock(f, inode, bytes, IndexOf(at));
    var id := BlockAt(inode, at);
    assert |f.blocks[id]| == |bytes| % BLOCK_SIZE;
    assert f.blocks[id := f.blocks[id]] == f.blocks;
  }

  /** Where the next piece goes. */
  lemma PieceCases(offset: nat, buf: seq<byte>, done: nat, len: nat)
    requires offset <= len && done < |buf| && done <= Taken(offset, |buf|, len) && (done == 0 || (offset + done) % BLOCK_SIZE == 0)
    ensures var at, n := offset + done, |PieceAt(buf, offset, done)|;
            && (done == Taken(offset, |buf|, len) ==> len % BLOCK_SIZE != 0 && at / BLOCK_SIZE == len / BLOCK_SIZE && at + n > len)
            && (done < Taken(offset, |buf|, len) ==>
                  && done + n <= Taken(offset, |buf|, len)
                  && (if at < len then at + n <= len else at % BLOCK_SIZE == 0 && len % BLOCK_SIZE == 0))
            && (done + n < |buf| ==> (at + n) % BLOCK_SIZE == 0)
  {
    NextStartsBlock(offset + done, |PieceAt(buf, offset, done)|, |buf| - done);
  }

  /** Some worker can be found for every position of the file. */
  ghost predicate Placed(f: Files, inode: uint64, placed: bool)
  {
    placed || MakeBlockId(inode, 0) in f.reported
  }

  lemma FindsWorker(f: Files, inode: uint64, at: nat, placed: bool, net: Net, i: nat)
    requires Placed(f, inode, placed) && Reliable(net) && at < MAX_FILE
    ensures HasWorker(f, inode, at, placed) && LookupsOk(f, inode, at, placed, net, i) && net.call(i) == Delivered
  {
    assert net.lookupOk(i) && net.lookupFirstOk(i);
  }

  lemma PutKeepsPlaced(f: Files, inode: uint64, placed: bool, id: BlockId, piece: seq<byte>, offset: nat)
    requires Placed(f, inode, placed)
    ensures Placed(PutBlock(f, id, piece, offset).0, inode, placed)
  {
  }

  /** What is taken of a write that starts within the stored bytes or right after them, and what the file holds then. */
  lemma {:induction false} WriteTakes(f: Files, inode: uint64, buf: seq<byte>, offset: nat, done: nat, placed: bool, net: Net, i: nat, bytes: seq<byte>)
    requires Reliable(net) && offset <= |bytes| && offset + |buf| <= MAX_FILE && Placed(f, inode, placed)
    requires done <= Taken(offset, |buf|, |bytes|) && (done == 0 || done == |buf| || (offset + done) % BLOCK_SIZE == 0)
    requires Stored(f, inode, Overlay(bytes, offset, buf[..done]))
    ensures var r, n := WriteFrom(f, inode, buf, offset, done, placed, net, i), Taken(offset, |buf|, |bytes|);
            r.status == Ok && r.written == Some(n) && Stored(r.files, inode, Overlay(bytes, offset, buf[..n]))
    decreases |buf| - done
  {
    hide Stored, Overlay, PutBlock, BlockAt, Taken, Placed, HasWorker, LookupsOk, Reliable;
    if done < |buf| {
      var at, piece, now := offset + done, PieceAt(buf, offset, done), Overlay(bytes, offset, buf[..done]);
      OverlayLength(bytes, offset, buf[..done]);
      PieceCases(offset, buf, done, |bytes|);
      FindsWorker(f, inode, at, placed, net, i);
      var (g, status) := PutBlock(f, BlockAt(inode, at), piece, at % BLOCK_SIZE);
      if done == Taken(offset, |buf|, |bytes|) {
        StillShort(offset, done, |buf|, |bytes|);
        PieceRefused(f, inode, now, at, piece);
      } else {
        if at < |bytes| { PieceOverwrites(f, inode, now, at, piece); } else { PieceExtends(f, inode, now, piece); }
        OverlayJoins(bytes, offset, buf, done, |piece|);
        PutKeepsPlaced(f, inode, placed, BlockAt(inode, at), piece, at % BLOCK_SIZE);
        WriteTakes(g, inode, buf, offset, done + |piece|, placed, net, i + 1, bytes);
      }
    }
  }

  /** What is taken of a write that is not taken whole ends within the bytes. */
  lemma StillShort(offset: nat, done: nat, n: nat, len: nat)
    requires offset <= len && done == Taken(offset, n, len) < n
    ensures offset + done <= len
  {
  }

  /** An append writes everything if the file ends with a full block, and otherwise nothing, without saying so. */
  lemma AppendExactly(f: Files, inode: uint64, buf: seq<byte>, placed: bool, net: Net, bytes: seq<byte>)
    requires Stored(f, inode, bytes) && Reliable(net) && buf != [] && |bytes| + |buf| <= MAX_FILE && Placed(f, inode, placed)
    ensures var r := WriteFrom(f, inode, buf, |bytes|, 0, placed, net, 0);
            && r.status == Ok
            && (|bytes| % BLOCK_SIZE == 0 ==> r.written == Some(|buf|) && Stored(r.files, inode, bytes + buf))
            && (|bytes| % BLOCK_SIZE != 0 ==> r.written == Some(0) && Stored(r.files, inode, bytes))
  {
    hide Stored, WriteFrom, Placed, Reliable;
    assert Overlay(bytes, |bytes|, []) == bytes && buf[..0] == [] && buf[..|buf|] == buf;
    assert Overlay(bytes, |bytes|, buf) == bytes + buf;
    WriteTakes(f, inode, buf, |bytes|, 0, placed, net, 0, bytes);
  }

  /** No block of the file lies at or after the block of `at`. */
  ghost predicate NothingFrom(f: Files, inode: uint64, at: nat)
  {
    forall j: uint32 {:trigger MakeBlockId(inode, j)} | at / BLOCK_SIZE <= j < 0x100_0000 :: MakeBlockId(inode, j) !in f.blocks
  }

  lemma PutOnEmpty(f: Files, inode: uint64, at: nat, piece: seq<byte>)
    requires NothingFrom(f, inode, at) && at < MAX_FILE && 0 < |piece| <= RoomAt(at)
    ensures var (g, status) := PutBlock(f, BlockAt(inode, at), piece, at % BLOCK_SIZE);
            && (status == Ok <==> at % BLOCK_SIZE == 0)
            && (forall next | next / BLOCK_SIZE > at / BLOCK_SIZE :: NothingFrom(g, inode, next))
  {
    hide Patch;
    OtherBlock(inode, at, IndexOf(at));
    var (g, status) := PutBlock(f, BlockAt(inode, at), piece, at % BLOCK_SIZE);
    forall j: uint32 | at / BLOCK_SIZE < j < 0x100_0000 ensures MakeBlockId(inode, j) !in g.blocks
    {
      OtherBlock(inode, at, j);
    }
  }

  /** A write to blocks that do not exist yet goes through whole if it starts on a block boundary, and not at all otherwise. */
  lemma {:induction false} WriteAtOffset(f: Files, inode: uint64, buf: seq<byte>, offset: nat, done: nat, placed: bool, net: Net, i: nat)
    requires Reliable(net) && done < |buf| && offset + |buf| <= MAX_FILE && NothingFrom(f, inode, offset + done) && Placed(f, inode, placed)
    ensures var r := WriteFrom(f, inode, buf, offset, done, placed, net, i);
            r.status == Ok && r.written == Some(if (offset + done) % BLOCK_SIZE == 0 then |buf| else done)
    decreases |buf| - done
  {
    hide PutBlock, BlockAt, NothingFrom, Placed, HasWorker, LookupsOk, Reliable;
    var at, piece := offset + done, PieceAt(buf, offset, done);
    PutOnEmpty(f, inode, at, piece);
    FindsWorker(f, inode, at, placed, net, i);
    PutKeepsPlaced(f, inode, placed, BlockAt(inode, at), piece, at % BLOCK_SIZE);
    if at % BLOCK_SIZE == 0 && done + |piece| < |buf| {
      NextStartsBlock(at, |piece|, |buf| - done);
      var (g, _) := PutBlock(f, BlockAt(inode, at), piece, at % BLOCK_SIZE);
      WriteAtOffset(g, inode, buf, offset, done + |piece|, placed, net, i + 1);
    }
  }

  lemma NothingAfter(f: Files, inode: uint64, bytes: seq<byte>, at: nat)
    requires Stored(f, inode, bytes) && at >= |bytes| && (|bytes| % BLOCK_SIZE == 0 || at / BLOCK_SIZE > |bytes| / BLOCK_SIZE)
    ensures NothingFrom(f, inode, at)
  {
    forall j: uint32 | at / BLOCK_SIZE <= j < 0x100_0000 ensures MakeBlockId(inode, j) !in f.blocks {
      assert HoldsBlock(f, inode, bytes, j);
    }
  }

  /** A write past the end of the file is taken whole if it starts on a block boundary, and otherwise not at all. */
  lemma WriteBeyond(f: Files, inode: uint64, buf: seq<byte>, offset: nat, placed: bool, net: Net, bytes: seq<byte>)
    requires Stored(f, inode, bytes) && Reliable(net) && buf != [] && offset > |bytes| && offset + |buf| <= MAX_FILE && Placed(f, inode, placed)
    ensures var r := WriteFrom(f, inode, buf, offset, 0, placed, net, 0);
            r.status == Ok && r.written == Some(if offset % BLOCK_SIZE == 0 then |buf| else 0)
  {
    hide Stored, PutBlock, BlockAt, NothingFrom, Placed, HasWorker, LookupsOk, Reliable;
    if |bytes| % BLOCK_SIZE != 0 && offset / BLOCK_SIZE == |bytes| / BLOCK_SIZE {
      PieceRefused(f, inode, bytes, offset, PieceAt(buf, offset, 0));
      FindsWorker(f, inode, offset, placed, net, 0);
    } else {
      NothingAfter(f, inode, bytes, offset);
      WriteAtOffset(f, inode, buf, offset, 0, placed, net, 0);
    }
  }

  // ---------- Calls that fail ----------

  /** How many of `n` bytes from `offset` on are done after `i` rounds, one block each. */
  function DoneAfter(offset: nat, n: nat, i: nat): nat
  {
    if i == 0 then 0 else Min(n, i * 0x400_0000 - offset % 0x400_0000)
  }

  lemma OneMoreRound(offset: nat, n: nat, i: nat)
    requires DoneAfter(offset, n, i) < n
    ensures var done := DoneAfter(offset, n, i);
            DoneAfter(offset, n, i + 1) == done + Min(n - done, RoomAt(offset + done))
  {
    var off := offset % 0x400_0000;
    if i > 0 {
      assert offset + (i * 0x400_0000 - off) == (offset / 0x400_0000 + i) * 0x400_0000;
    }
  }

  predicate Clean(net: Net, i: nat) { net.lookupOk(i) && net.call(i) == Delivered }

  /**
   * A write over stored bytes whose first failing round is `j`.  A failed lookup is an error that
   * reports no count.  A lost call ends the write with what was done before, without an error; so
   * does a lost reply, although the piece has arrived.
   */
  lemma {:induction false} WriteStopsAt(f: Files, inode: uint64, buf: seq<byte>, offset: nat, placed: bool, net: Net, i: nat, bytes: seq<byte>, j: nat)
    requires i <= j && (forall k | i <= k < j :: Clean(net, k)) && !Clean(net, j) && offset + |buf| <= |bytes|
    requires DoneAfter(offset, |buf|, j) < |buf| && DoneAfter(offset, |buf|, i) <= |buf|
    requires Stored(f, inode, Patch(bytes, offset, buf[..DoneAfter(offset, |buf|, i)]))
    ensures var r := WriteFrom(f, inode, buf, offset, DoneAfter(offset, |buf|, i), placed, net, i);
            var done, next := DoneAfter(offset, |buf|, j), DoneAfter(offset, |buf|, j + 1);
            && 0 <= done < next <= |buf|
            && (!net.lookupOk(j) ==> r.status == IOError && r.written == None)
            && (net.lookupOk(j) ==> r.status == Ok && r.written == Some(done))
            && Stored(r.files, inode, Patch(bytes, offset, buf[..if net.lookupOk(j) && net.call(j) == ReplyLost then next else done]))
    decreases j - i
  {
    hide Stored, Patch, PutBlock, BlockAt, DoneAfter;
    DoneGrows(offset, |buf|, i, j);
    var done := DoneAfter(offset, |buf|, i);
    var at, piece, now := offset + done, PieceAt(buf, offset, done), Patch(bytes, offset, buf[..done]);
    OneMoreRound(offset, |buf|, i);
    OneMoreRound(offset, |buf|, j);
    KnownBlock(f, inode, now, at);
    PieceOverwrites(f, inode, now, at, piece);
    PatchJoin(bytes, offset, buf, done, |piece|);
    var (g, _) := PutBlock(f, BlockAt(inode, at), piece, at % BLOCK_SIZE);
    if i < j {
      assert Clean(net, i);
      WriteStopsAt(g, inode, buf, offset, placed, net, i + 1, bytes, j);
    }
  }

  lemma DoneGrows(offset: nat, n: nat, i: nat, j: nat)
    requires i <= j
    ensures 0 <= DoneAfter(offset, n, i) <= DoneAfter(offset, n, j) <= n
  {
  }

  /** A read of stored bytes whose first failing round is `j`: a failed lookup is an error, a lost call ends the read with what came before. */
  lemma {:induction false} ReadStopsAt(f: Files, inode: uint64, offset: nat, readable: nat, net: Net, i: nat, bytes: seq<byte>, j: nat)
    requires i <= j && (forall k | i <= k < j :: Clean(net, k)) && !Clean(net, j) && offset + readable <= |bytes| && Stored(f, inode, bytes)
    requires DoneAfter(offset, readable, j) < readable && DoneAfter(offset, readable, i) <= readable
    requires Readable(f, inode, offset + DoneAfter(offset, readable, i))
    ensures var got := bytes[offset..offset + DoneAfter(offset, readable, i)];
            ReadFrom(f, inode, offset, readable, got, net, i) ==
            if net.lookupOk(j) then ReadResult(Ok, Some(bytes[offset..offset + DoneAfter(offset, readable, j)])) else ReadResult(IOError, None)
    decreases j - i
  {
    hide Stored, Remains, BlockAt, GetBlock, DoneAfter;
    DoneGrows(offset, readable, i, j);
    var done := DoneAfter(offset, readable, i);
    var at, n := offset + done, Min(readable - done, RoomAt(offset + done));
    StoredRemains(f, inode, bytes);
    ReadPiece(f, inode, bytes, at, n);
    OneMoreRound(offset, readable, i);
    if i < j {
      assert Clean(net, i);
      DoneGrows(offset, readable, i + 1, j);
      NextStartsBlock(at, n, readable - done);
      Adjoin(bytes, offset, at, at + n);
      ReadStopsAt(f, inode, offset, readable, net, i + 1, bytes, j);
    }
  }

  // ---------- Round trip ----------

  /** Block by block the file has the lengths the block arithmetic promises, over exactly the counted blocks. */
  lemma StoredLengths(f: Files, inode: uint64, bytes: seq<byte>)
    requires Stored(f, inode, bytes)
    ensures GetBlockCount(|bytes|, BLOCK_SIZE) == Ceiling(|bytes|, BLOCK_SIZE) <= INDEX_SPAN
    ensures forall i: uint32 | i < INDEX_SPAN :: MakeBlockId(inode, i) in f.blocks <==> i < GetBlockCount(|bytes|, BLOCK_SIZE)
    ensures forall i: uint32 | i < GetBlockCount(|bytes|, BLOCK_SIZE) ::
              |f.blocks[MakeBlockId(inode, i)]| == GetBlockLength(|bytes|, i, BLOCK_SIZE)
  {
    CountIsCeiling(|bytes|, BLOCK_SIZE);
    CeilingBounds(|bytes|, BLOCK_SIZE);
    forall i: uint32 | i < INDEX_SPAN
      ensures MakeBlockId(inode, i) in f.blocks <==> i < GetBlockCount(|bytes|, BLOCK_SIZE)
      ensures i < GetBlockCount(|bytes|, BLOCK_SIZE) ==>
                |f.blocks[MakeBlockId(inode, i)]| == GetBlockLength(|bytes|, i, BLOCK_SIZE)
    {
      assert HoldsBlock(f, inode, bytes, i);
    }
  }

  // ---------- Writing and reading by path ----------

  /** Only a file that the write itself creates comes with a worker, if the master has one. */
  predicate HasNewWorker(target: Target) { target.Created? && target.placed }

  function WriteTarget(f: Files, target: Target, buf: seq<byte>, offset: nat, net: Net): WriteResult
  {
    if target.Refused? then WriteResult(f, target.status, None)
    else WriteFrom(f, target.inode, buf, offset, 0, HasNewWorker(target), net, 0)
  }

  /** The size is the one the master has recorded; a write does not change it. */
  function ReadTarget(f: Files, target: Target, size: nat, offset: nat, net: Net): ReadResult
    requires !target.Created? && (target.Known? ==> Starts(f, target.inode, target.size, size, offset))
  {
    if target.Refused? then ReadResult(target.status, None)
    else if offset >= target.size then ReadResult(Ok, Some([]))
    else ReadFrom(f, target.inode, offset, Min(size, target.size - offset), [], net, 0)
  }

  /** If the read gets to a block at all, it starts inside that block. */
  predicate Starts(f: Files, inode: uint64, recorded: nat, size: nat, offset: nat)
  {
    size > 0 && offset < recorded ==> Readable(f, inode, offset)
  }

  /**
   * The first write to a file without blocks goes through if and only if the write created the file
   * and was given a worker for it, and it starts on a block boundary.  For a file created earlier
   * there is no worker to be found.
   */
  lemma FirstWrite(f: Files, target: Target, buf: seq<byte>, offset: nat, net: Net)
    requires !target.Refused? && Stored(f, target.inode, []) && Reliable(net) && buf != [] && offset + |buf| <= MAX_FILE
    ensures var r := WriteTarget(f, target, buf, offset, net);
            && (r.written == Some(|buf|) <==> HasNewWorker(target) && offset % BLOCK_SIZE == 0)
            && (!HasNewWorker(target) ==> r == WriteResult(f, Unavailable, Some(0)))
            && (HasNewWorker(target) ==> r.status == Ok)
            && (HasNewWorker(target) && offset == 0 ==> Stored(r.files, target.inode, buf))
  {
    hide Stored, PutBlock, BlockAt, HasWorker, LookupsOk, Reliable;
    if HasNewWorker(target) {
      if offset == 0 {
        assert Overlay([], 0, []) == [] && buf[..0] == [] && Overlay([], 0, buf) == buf && buf[..|buf|] == buf;
        WriteTakes(f, target.inode, buf, 0, 0, true, net, 0, []);
      } else {
        WriteBeyond(f, target.inode, buf, offset, true, net, []);
      }
    } else {
      NoWorker(f, target.inode, offset, net);
    }
  }

  /**
   * A write to a file without blocks and without a worker, on any network: the location of block 0
   * is asked for as well unless it is block 0 that is written.
   */
  lemma NoWorkerAnswers(f: Files, inode: uint64, buf: seq<byte>, offset: nat, net: Net)
    requires Stored(f, inode, []) && buf != [] && offset < MAX_FILE
    ensures WriteFrom(f, inode, buf, offset, 0, false, net, 0) ==
            if net.lookupOk(0) && (offset < BLOCK_SIZE || net.lookupFirstOk(0)) then WriteResult(f, Unavailable, Some(0))
            else WriteResult(f, IOError, None)
  {
    hide Slice;
    OtherBlock(inode, offset, IndexOf(offset));
    assert HoldsBlock(f, inode, [], IndexOf(offset)) && HoldsBlock(f, inode, [], 0);
  }

  lemma NoWorker(f: Files, inode: uint64, at: nat, net: Net)
    requires Stored(f, inode, []) && at < MAX_FILE && Reliable(net)
    ensures !HasWorker(f, inode, at, false) && LookupsOk(f, inode, at, false, net, 0)
  {
    OtherBlock(inode, at, IndexOf(at));
    assert HoldsBlock(f, inode, [], IndexOf(at)) && HoldsBlock(f, inode, [], 0);
    assert net.lookupOk(0) && net.lookupFirstOk(0);
  }

  /** The part of the range that the bytes have. */
  ghost function Range(bytes: seq<byte>, offset: nat, size: nat): seq<byte>
  {
    bytes[Min(offset, |bytes|)..Min(offset + size, |bytes|)]
  }

  /** With a recorded size within the stored bytes, a read returns what the range has of that many bytes. */
  lemma ReadsRecorded(f: Files, inode: uint64, bytes: seq<byte>, recorded: nat, offset: nat, size: nat, net: Net)
    requires Stored(f, inode, bytes) && Reliable(net) && recorded <= |bytes|
    ensures Starts(f, inode, recorded, size, offset)
    ensures ReadTarget(f, Known(inode, recorded), size, offset, net) == ReadResult(Ok, Some(Range(bytes[..recorded], offset, size)))
  {
    hide ReadFrom, Stored, Remains, Readable, Reliable;
    if offset < recorded {
      StoredRemains(f, inode, bytes);
      StartsInBlock(f, inode, bytes, offset);
      ReadsPrefix(f, inode, offset, Min(size, recorded - offset), [], net, 0, bytes);
      RangeWithin(bytes, recorded, offset, size);
    } else {
      assert Range(bytes[..recorded], offset, size) == [];
    }
  }

  lemma StartsInBlock(f: Files, inode: uint64, bytes: seq<byte>, at: nat)
    requires Stored(f, inode, bytes) && at < |bytes|
    ensures Readable(f, inode, at)
  {
    hide Stored, Remains, BlockAt;
    StoredRemains(f, inode, bytes);
    ReadPiece(f, inode, bytes, at, 1);
  }

  lemma RangeWithin(bytes: seq<byte>, recorded: nat, offset: nat, size: nat)
    requires offset < recorded <= |bytes|
    ensures Range(bytes[..recorded], offset, size) == bytes[offset..offset + Min(size, recorded - offset)]
  {
    var n := Min(size, recorded - offset);
    assert bytes[..recorded][offset..offset + n] == bytes[offset..offset + n];
  }

  /** Bytes that end with a full block are read up to their end, however large the recorded size. */
  lemma {:induction false} ReadsToEnd(f: Files, inode: uint64, offset: nat, readable: nat, got: seq<byte>, net: Net, i: nat, bytes: seq<byte>)
    requires Reliable(net) && Stored(f, inode, bytes) && |bytes| % BLOCK_SIZE == 0
    requires offset + |got| <= |bytes| <= offset + readable <= MAX_FILE && got == bytes[offset..offset + |got|]
    requires |got| < readable ==> Readable(f, inode, offset + |got|)
    ensures ReadFrom(f, inode, offset, readable, got, net, i) == ReadResult(Ok, Some(bytes[offset..]))
    decreases readable - |got|
  {
    hide Remains, Stored, GetBlock, BlockAt, Reliable;
    if |got| < readable {
      var at := offset + |got|;
      var id := BlockAt(inode, at);
      var n := Min(readable - |got|, RoomAt(at));
      IsDelivered(net, i);
      if at < |bytes| {
        StoredRemains(f, inode, bytes);
        ReadPiece(f, inode, bytes, at, n);
        NextStartsBlock(at, n, readable - |got|);
        Adjoin(bytes, offset, at, at + n);
        ReadsToEnd(f, inode, offset, readable, got + GetBlock(f.blocks[id], at % BLOCK_SIZE, n), net, i + 1, bytes);
      } else {
        NoBlockAt(f, inode, bytes, at);
        assert got == bytes[offset..];
      }
    } else {
      assert got == bytes[offset..];
    }
  }

  lemma IsDelivered(net: Net, i: nat)
    requires Reliable(net)
    ensures net.lookupOk(i) && net.call(i) == Delivered
  {
  }

  lemma NoBlockAt(f: Files, inode: uint64, bytes: seq<byte>, at: nat)
    requires Stored(f, inode, bytes) && (bytes == [] || (|bytes| % BLOCK_SIZE == 0 && |bytes| <= at < MAX_FILE))
    ensures BlockAt(inode, at) !in f.reported && BlockAt(inode, at) !in f.blocks
  {
    hide Slice;
    OffsetsWrap(inode, at);
    OtherBlock(inode, at % MAX_FILE, IndexOf(at % MAX_FILE));
    assert HoldsBlock(f, inode, bytes, IndexOf(at % MAX_FILE));
  }

  /** Every read that starts inside a block or past the size returns exactly what the range has of the bytes. */
  ghost predicate ReadsExactly(f: Files, inode: uint64, recorded: nat, bytes: seq<byte>, net: Net)
  {
    forall offset: nat, size: nat | Starts(f, inode, recorded, size, offset) ::
      ReadTarget(f, Known(inode, recorded), size, offset, net) == ReadResult(Ok, Some(Range(bytes, offset, size)))
  }

  /** The recorded size is the length, or lies past it where no block can be mistaken for more of the file. */
  predicate SizeServes(recorded: nat, len: nat)
  {
    recorded == len || (recorded > len && len % BLOCK_SIZE == 0 && (recorded <= MAX_FILE || len == 0))
  }

  /** A recorded size that is too small hides bytes. */
  lemma SmallSizeHides(f: Files, inode: uint64, bytes: seq<byte>, recorded: nat, net: Net)
    requires recorded < |bytes|
    ensures !ReadsExactly(f, inode, recorded, bytes, net)
  {
    hide ReadFrom, Readable;
    assert Starts(f, inode, recorded, 1, recorded);
    assert ReadTarget(f, Known(inode, recorded), 1, recorded, net) == ReadResult(Ok, Some([]));
    assert |Range(bytes, recorded, 1)| == 1;
  }

  /** One byte read from a block that is there, whatever it holds. */
  lemma ReadsOneByte(f: Files, inode: uint64, recorded: nat, at: nat, net: Net)
    requires Reliable(net) && at < recorded && BlockAt(inode, at) in f.blocks && BlockAt(inode, at) in f.reported && Readable(f, inode, at)
    ensures Starts(f, inode, recorded, 1, at)
    ensures var r := ReadTarget(f, Known(inode, recorded), 1, at, net);
            r.data.Some? && |r.data.value| == 1
  {
    hide GetBlock, BlockAt;
    IsDelivered(net, 0);
    var d := GetBlock(f.blocks[BlockAt(inode, at)], at % BLOCK_SIZE, 1);
    assert [] + d == d;
    assert ReadFrom(f, inode, at, 1, d, net, 1) == ReadResult(Ok, Some(d));
  }

  /** A recorded size that is too large shows bytes that were never written. */
  lemma LargeSizeInvents(f: Files, inode: uint64, bytes: seq<byte>, recorded: nat, net: Net)
    requires Stored(f, inode, bytes) && Reliable(net) && recorded > |bytes| && !SizeServes(recorded, |bytes|)
    ensures !ReadsExactly(f, inode, recorded, bytes, net)
  {
    hide ReadTarget, Slice, Reliable;
    var at := if |bytes| % BLOCK_SIZE != 0 then |bytes| else MAX_FILE;
    OffsetsWrap(inode, at);
    OtherBlock(inode, at % MAX_FILE, IndexOf(at % MAX_FILE));
    assert HoldsBlock(f, inode, bytes, IndexOf(at % MAX_FILE));
    assert Readable(f, inode, at);
    ReadsOneByte(f, inode, recorded, at, net);
    assert Range(bytes, at, 1) == [];
  }

  /** What it shows there are zeros, up to the end of the block that is not full. */
  lemma ReadsZeros(f: Files, inode: uint64, bytes: seq<byte>, recorded: nat, offset: nat, size: nat, net: Net)
    requires Stored(f, inode, bytes) && Reliable(net) && |bytes| % BLOCK_SIZE != 0
    requires LastStart(|bytes|) <= offset <= |bytes| < offset + size <= recorded && offset + size <= LastStart(|bytes|) + BLOCK_SIZE
    ensures Starts(f, inode, recorded, size, offset)
    ensures ReadTarget(f, Known(inode, recorded), size, offset, net) == ReadResult(Ok, Some(bytes[offset..] + Zeros(offset + size - |bytes|)))
  {
    hide Slice, Zeros, BlockAt;
    var id := BlockAt(inode, offset);
    LastBlock(f, inode, bytes, offset);
    IsDelivered(net, 0);
    var d := GetBlock(f.blocks[id], offset % BLOCK_SIZE, size);
    assert [] + d == d;
    assert ReadFrom(f, inode, offset, size, d, net, 1) == ReadResult(Ok, Some(d));
  }

  lemma LastBlock(f: Files, inode: uint64, bytes: seq<byte>, at: nat)
    requires Stored(f, inode, bytes) && |bytes| % BLOCK_SIZE != 0 && LastStart(|bytes|) <= at <= |bytes|
    ensures var id := BlockAt(inode, at);
            && id in f.blocks && id in f.reported && |f.blocks[id]| == |bytes| % BLOCK_SIZE && at % BLOCK_SIZE <= |f.blocks[id]|
            && f.blocks[id][at % BLOCK_SIZE..] == bytes[at..]
  {
    OtherBlock(inode, at, IndexOf(at));
    assert HoldsBlock(f, inode, bytes, IndexOf(at));
    assert at / BLOCK_SIZE == |bytes| / BLOCK_SIZE;
  }

  lemma ServingSize(f: Files, inode: uint64, bytes: seq<byte>, recorded: nat, offset: nat, size: nat, net: Net)
    requires Stored(f, inode, bytes) && Reliable(net) && SizeServes(recorded, |bytes|) && Starts(f, inode, recorded, size, offset)
    ensures ReadTarget(f, Known(inode, recorded), size, offset, net) == ReadResult(Ok, Some(Range(bytes, offset, size)))
  {
    hide Stored, Readable, Reliable, ReadFrom;
    if recorded == |bytes| {
      assert bytes[..recorded] == bytes;
      ReadsRecorded(f, inode, bytes, recorded, offset, size, net);
    } else if offset < recorded {
      PastTheEnd(f, inode, bytes, Min(size, recorded - offset), offset, net);
      assert Min(offset + size, |bytes|) == Min(offset + Min(size, recorded - offset), |bytes|);
    } else {
      assert Range(bytes, offset, size) == [];
    }
  }

  /** Without a block that is not full the stored blocks alone end the read. */
  lemma PastTheEnd(f: Files, inode: uint64, bytes: seq<byte>, readable: nat, offset: nat, net: Net)
    requires Stored(f, inode, bytes) && Reliable(net) && |bytes| % BLOCK_SIZE == 0
    requires (offset + readable <= MAX_FILE || bytes == []) && (readable > 0 ==> Readable(f, inode, offset))
    ensures ReadFrom(f, inode, offset, readable, [], net, 0) == ReadResult(Ok, Some(Range(bytes, offset, readable)))
  {
    hide Stored, Readable, Reliable, BlockAt;
    if readable == 0 {
    } else if offset >= |bytes| {
      NoBlockAt(f, inode, bytes, offset);
      IsDelivered(net, 0);
      assert Range(bytes, offset, readable) == [];
    } else if offset + readable <= |bytes| {
      StoredRemains(f, inode, bytes);
      ReadsPrefix(f, inode, offset, readable, [], net, 0, bytes);
    } else {
      ReadsToEnd(f, inode, offset, readable, [], net, 0, bytes);
      assert Range(bytes, offset, readable) == bytes[offset..];
    }
  }

  /** All reads are exact if and only if the master's recorded size serves. */
  lemma ReadsExactlyWhen(f: Files, inode: uint64, bytes: seq<byte>, recorded: nat, net: Net)
    requires Stored(f, inode, bytes) && Reliable(net)
    ensures ReadsExactly(f, inode, recorded, bytes, net) <==> SizeServes(recorded, |bytes|)
  {
    hide Stored, Reliable, ReadTarget, Starts, Range;
    if SizeServes(recorded, |bytes|) {
      forall offset: nat, size: nat | Starts(f, inode, recorded, size, offset)
        ensures ReadTarget(f, Known(inode, recorded), size, offset, net) == ReadResult(Ok, Some(Range(bytes, offset, size)))
      {
        ServingSize(f, inode, bytes, recorded, offset, size, net);
      }
    } else if recorded < |bytes| {
      SmallSizeHides(f, inode, bytes, recorded, net);
    } else {
      LargeSizeInvents(f, inode, bytes, recorded, net);
    }
  }

  /**
   * What a write that creates its file stores is read back up to the size the master has recorded,
   * and exactly, at every offset and size, if and only if that size serves.
   */
  lemma WriteReadRoundTrip(f: Files, inode: uint64, buf: seq<byte>, net: Net, recorded: nat, later: Net)
    requires Stored(f, inode, []) && Reliable(net) && Reliable(later) && |buf| <= MAX_FILE
    ensures var r := WriteTarget(f, Created(inode, true), buf, 0, net);
            && r.status == Ok && r.written == Some(|buf|) && Stored(r.files, inode, buf)
            && (ReadsExactly(r.files, inode, recorded, buf, later) <==> SizeServes(recorded, |buf|))
            && (recorded <= |buf| ==> ReadsExactly(r.files, inode, recorded, buf[..recorded], later))
  {
    hide WriteFrom, Stored, Reliable, ReadTarget, Starts, Range, SizeServes;
    assert Placed(f, inode, true);
    assert Overlay([], 0, []) == [] && buf[..0] == [] && Overlay([], 0, buf) == buf && buf[..|buf|] == buf;
    WriteTakes(f, inode, buf, 0, 0, true, net, 0, []);
    var g := WriteTarget(f, Created(inode, true), buf, 0, net).files;
    ReadsExactlyWhen(g, inode, buf, recorded, later);
    if recorded <= |buf| {
      forall offset: nat, size: nat | Starts(g, inode, recorded, size, offset)
        ensures ReadTarget(g, Known(inode, recorded), size, offset, later) == ReadResult(Ok, Some(Range(buf[..recorded], offset, size)))
      {
        ReadsRecorded(g, inode, buf, recorded, offset, size, later);
      }
    }
  }

  lemma StoredRemains(f: Files, inode: uint64, bytes: seq<byte>)
    requires Stored(f, inode, bytes)
    ensures Remains(f, inode, bytes)
  {
    forall i: uint32 | i < 0x100_0000 && MakeBlockId(inode, i) in f.blocks
      ensures i * 0x400_0000 < |bytes| && f.blocks[MakeBlockId(inode, i)] == Slice(bytes, i)
    {
      assert HoldsBlock(f, inode, bytes, i);
    }
  }

  // ---------- Other files ----------

  ghost predicate Spared(f: Files, g: Files, id: uint64)
  {
    && (id in g.blocks <==> id in f.blocks) && (id in f.blocks ==> g.blocks[id] == f.blocks[id])
    && (id in g.reported <==> id in f.reported)
  }

  lemma PutSpares(f: Files, inode: uint64, at: nat, piece: seq<byte>, id: uint64)
    requires GetInodeId(id) != inode % INODE_SPAN
    ensures Spared(f, PutBlock(f, BlockAt(inode, at), piece, at % BLOCK_SIZE).0, id)
  {
    hide Patch;
    var index := IndexOf(at) % INDEX_SPAN;
    assert MakeBlockId(inode % INODE_SPAN, index) == BlockAt(inode, at);
    BlockIdRoundTrip(inode % INODE_SPAN, index);
  }

  /** Whatever happens on the network, writing one file touches no block of another. */
  lemma {:induction false} WriteSparesOthers(f: Files, inode: uint64, buf: seq<byte>, offset: nat, done: nat, placed: bool, net: Net, i: nat, id: uint64)
    requires done <= |buf| && GetInodeId(id) != inode % INODE_SPAN
    ensures Spared(f, WriteFrom(f, inode, buf, offset, done, placed, net, i).files, id)
    decreases |buf| - done
  {
    hide PutBlock, BlockAt, GetInodeId, LookupsOk, HasWorker;
    if done < |buf| {
      var at, piece := offset + done, PieceAt(buf, offset, done);
      PutSpares(f, inode, at, piece, id);
      var (g, _) := PutBlock(f, BlockAt(inode, at), piece, at % BLOCK_SIZE);
      WriteSparesOthers(g, inode, buf, offset, done + |piece|, placed, net, i + 1, id);
    }
  }

  // ---------- The client ----------

  class FileSystemClient {
    var files: Files

    constructor (files: Files)
      ensures this.files == files
    {
      this.files := files;
    }

    method ReadFile(target: Target, size: nat, offset: nat, net: Net) returns (status: Status, data: Option<seq<byte>>)
      requires !target.Created? && (target.Known? ==> Starts(files, target.inode, target.size, size, offset))
      ensures ReadResult(status, data) == ReadTarget(files, target, size, offset, net)
    {
      hide GetBlock, MakeBlockId;
      if target.Refused? { return target.status, None; }
      if offset >= target.size { return Ok, Some([]); }
      var readable := Min(size, target.size - offset);
      var got: seq<byte> := [];
      var i := 0;
      while |got| < readable
        invariant |got| <= readable && (|got| < readable ==> Readable(files, target.inode, offset + |got|))
        invariant ReadFrom(files, target.inode, offset, readable, [], net, 0) ==
                  ReadFrom(files, target.inode, offset, readable, got, net, i)
      {
        var at := offset + |got|;
        var id := BlockAt(target.inode, at);
        var n := Min(readable - |got|, RoomAt(at));
        if !net.lookupOk(i) { return IOError, None; }
        if id !in files.reported { break; }
        if net.call(i) != Delivered || id !in files.blocks { break; }
        NextStartsBlock(at, n, readable - |got|);
        got := got + GetBlock(files.blocks[id], at % BLOCK_SIZE, n);
        i := i + 1;
      }
      return Ok, Some(got);
    }

    method WriteFile(target: Target, buf: seq<byte>, offset: nat, net: Net) returns (status: Status, written: Option<nat>)
      modifies this
      ensures WriteResult(files, status, written) == WriteTarget(old(files), target, buf, offset, net)
    {
      hide PutBlock, BlockAt, LookupsOk, HasWorker;
      if target.Refused? { return target.status, None; }
      var placed := target.Created? && target.placed;
      var done, i := 0, 0;
      while done < |buf|
        invariant done <= |buf|
        invariant WriteFrom(old(files), target.inode, buf, offset, 0, placed, net, 0) ==
                  WriteFrom(files, target.inode, buf, offset, done, placed, net, i)
      {
        var at := offset + done;
        var piece := PieceAt(buf, offset, done);
        if !LookupsOk(files, target.inode, at, placed, net, i) { return IOError, None; }
        if !HasWorker(files, target.inode, at, placed) { return Unavailable, Some(done); }
        if net.call(i) == Lost { break; }
        var (g, s) := PutBlock(files, BlockAt(target.inode, at), piece, at % BLOCK_SIZE);
        files := g;
        if net.call(i) == ReplyLost || s != Ok { break; }
        done := done + |piece|;
        i := i + 1;
      }
      return Ok, Some(done);
    }
  }
}

/** A worker with one memory tier serves a client's write exactly as `PutBlock` says, while nothing is evicted. */
module WorkerCalls {
  import opened Common
  import opened CachePolicy
  import opened CacheManagers
  import opened StorageTiers
  import opened BlockStores
  import FileClients

  /** The store holds exactly these blocks with exactly these bytes. */
  ghost predicate Shows(s: State, blocks: map<BlockId, seq<byte>>)
    requires Structured(s)
  {
    blocks.Keys == s.home.Keys && forall id | id in s.home :: blocks[id] == BytesOf(s, id)
  }

  /** The block fits, and entering it does not lift the tier above its high watermark. */
  predicate Roomy(s: State, opts: Options, size: nat)
    requires |s.tiers| == 1
  {
    var t := s.tiers[0];
    Available(t) >= size && !AboveHigh(t.(used := t.used + size), opts)
  }

  lemma EnsuredShows(s: State, opts: Options, id: BlockId, size: nat, blocks: map<BlockId, seq<byte>>)
    requires Inv(s) && Sane(opts) && id != NO_BLOCK && |s.tiers| == 1 && s.tiers[0].kind == Memory && Shows(s, blocks)
    requires id !in s.home ==> Roomy(s, opts, size)
    ensures var t := EnsureBlock(s, opts, id, size, true).state;
            && Inv(t) && |t.tiers| == 1 && t.tiers[0].kind == Memory && id in t.home
            && Shows(t, if id in s.home then blocks else blocks[id := Zeros(size)])
  {
    hide ManagerInv, Tracking, ManagerInsert, Structured, Evict;
    if id !in s.home {
      NotThere(s, 0, id);
      EnterKeeps(s, 0, id, size);
      var t := Enter(s, 0, id, size);
      OwnIndex(t, 0);
      assert EnsureBlock(s, opts, id, size, true).state == t;
    }
  }

  /** A memory block takes a write exactly if it lies within the block. */
  lemma MemoryWriteStatus(s: State, id: BlockId, data: seq<byte>, offset: nat)
    requires Inv(s) && |s.tiers| == 1 && s.tiers[0].kind == Memory && id in s.home
    ensures WriteBlock(s, id, data, offset).status == if offset + |data| <= |BytesOf(s, id)| then Ok else InvalidArgument
  {
    hide ManagerInv, Tracking, Touched, WriteAt;
    Home(s, id);
  }

  lemma PutIsEnsureThenWrite(s: State, opts: Options, id: BlockId, data: seq<byte>, offset: nat, f: FileClients.Files)
    requires Inv(s) && Sane(opts) && id != NO_BLOCK && |s.tiers| == 1 && s.tiers[0].kind == Memory && Shows(s, f.blocks)
    requires id !in s.home ==> Roomy(s, opts, |data|)
    ensures var o := WriteBlock(EnsureBlock(s, opts, id, |data|, true).state, id, data, offset);
            var (g, status) := FileClients.PutBlock(f, id, data, offset);
            Inv(o.state) && Shows(o.state, g.blocks) && o.status == status
  {
    hide ManagerInv, Tracking, Structured, WriteBlock, EnsureBlock, BytesOf, Patch, Zeros;
    var t := EnsureBlock(s, opts, id, |data|, true).state;
    EnsuredShows(s, opts, id, |data|, f.blocks);
    WriteKeeps(t, id, data, offset);
    MemoryWriteStatus(t, id, data, offset);
  }
}
