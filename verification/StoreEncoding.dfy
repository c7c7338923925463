/**
 * The store as the database keeps it: two column families of byte strings.  Every write of a batch,
 * spelled in bytes, does to them what the abstract write does to the inode and edge tables, so a
 * recovery that scans bytes sees exactly the abstract store.
 */
module StoreEncodings {
  import opened Common
  import opened Bytes
  import opened NamespaceTree
  import NS = NamespaceStore
  import opened InodeCodecs

  datatype Kv = Kv(inodes: map<Text, Text>, edges: map<Text, Text>)

  // ---------- Inodes and records ----------

  /** The fields are within the machine words they are kept in. */
  predicate Fits(i: Inode)
  {
    && i.parentId < 0x1_0000_0000_0000_0000 && i.size < 0x1_0000_0000_0000_0000 && i.blockSize < 0x1_0000_0000_0000_0000
    && -0x8000_0000_0000_0000 <= i.ctime < 0x8000_0000_0000_0000 && -0x8000_0000_0000_0000 <= i.mtime < 0x8000_0000_0000_0000
    && i.mode < 0x1_0000_0000
  }

  function RecordOf(i: Inode): Record
    requires Fits(i)
  {
    Record(i.parentId, i.size, i.blockSize, i.ctime, i.mtime, i.mode, i.isDir, i.isComplete, i.owner, i.group, i.name)
  }

  function InodeOf(id: InodeId, r: Record): Inode
  {
    Inode(id, r.parent, r.name, r.isDir, r.size, r.mode, r.owner, r.group, r.blockSize, r.ctime, r.mtime, map[], r.isComplete)
  }

  // ---------- Which bytes stand for which store ----------

  ghost predicate InodeCoded(kv: Kv, d: Dict, st: NS.Store, id: uint64)
  {
    id < OWNER_DICT_KEY ==>
      && (id in st.inodes <==> InodeKey(id) in kv.inodes)
      && (id in st.inodes ==>
            && Fits(st.inodes[id]) && st.inodes[id] == NS.Persisted(id, st.inodes[id])
            && Reads(kv.inodes[InodeKey(id)], d, RecordOf(st.inodes[id])))
  }

  ghost predicate EdgeCoded(kv: Kv, st: NS.Store, p: uint64, n: Name)
  {
    && (NS.Edge(p, n) in st.edges <==> EdgeKey(p, n) in kv.edges)
    && (NS.Edge(p, n) in st.edges ==>
          && st.edges[NS.Edge(p, n)] < 0x1_0000_0000_0000_0000
          && kv.edges[EdgeKey(p, n)] == Big(st.edges[NS.Edge(p, n)], 8))
  }

  ghost predicate CounterCoded(kv: Kv, st: NS.Store)
  {
    if InodeKey(NEXT_ID_KEY) in kv.inodes then
      |kv.inodes[InodeKey(NEXT_ID_KEY)]| == 8 && st.nextId == Some(FromLittle(kv.inodes[InodeKey(NEXT_ID_KEY)]))
    else st.nextId == None
  }

  function ListAt(kv: Kv, key: uint64): seq<Name>
  {
    if InodeKey(key) in kv.inodes then DeserializeList(kv.inodes[InodeKey(key)]) else []
  }

  /** The lists on disk may lack names that memory counts as written already. */
  ghost predicate Behind(kv: Kv, d: Dict)
  {
    && ValidDict(d) && Short(d.owners.list) && Short(d.groups.list)
    && ListAt(kv, OWNER_DICT_KEY) <= d.owners.list && ListAt(kv, GROUP_DICT_KEY) <= d.groups.list
  }

  /** The lists on disk are those in memory. */
  ghost predicate DictCoded(kv: Kv, d: Dict)
  {
    ListAt(kv, OWNER_DICT_KEY) == d.owners.list && ListAt(kv, GROUP_DICT_KEY) == d.groups.list
  }

  /** No key is malformed, and no id lies outside the key space. */
  ghost predicate InKeySpace(kv: Kv, st: NS.Store)
  {
    && (forall id | id in st.inodes :: id < OWNER_DICT_KEY) && (forall k | k in kv.inodes :: |k| == 8)
    && (forall e | e in st.edges :: e.parent < 0x1_0000_0000_0000_0000) && (forall k | k in kv.edges :: |k| >= 8)
  }

  /** Read with the dictionary in memory, the bytes stand for the store. */
  ghost predicate Coded(kv: Kv, d: Dict, st: NS.Store)
  {
    && (forall id: uint64 {:trigger InodeCoded(kv, d, st, id)} :: InodeCoded(kv, d, st, id))
    && (forall p: uint64, n {:trigger EdgeCoded(kv, st, p, n)} :: EdgeCoded(kv, st, p, n))
    && CounterCoded(kv, st) && Behind(kv, d) && InKeySpace(kv, st)
  }

  /** So they do read with the dictionary on disk. */
  ghost predicate Encodes(kv: Kv, d: Dict, st: NS.Store)
  {
    Coded(kv, d, st) && DictCoded(kv, d)
  }

  // ---------- Writing ----------

  /** What the store can spell: ids below the reserved keys, fields in range, names with ids of their own. */
  predicate Spellable(w: NS.Write, d: Dict)
  {
    match w
    case PutInode(id, inode) => id < OWNER_DICT_KEY && Fits(inode) && Storable(d, RecordOf(inode))
    case DeleteInode(id) => id < OWNER_DICT_KEY
    case PutEdge(e, c) => e.parent < 0x1_0000_0000_0000_0000 && c < 0x1_0000_0000_0000_0000
    case DeleteEdge(e) => e.parent < 0x1_0000_0000_0000_0000
    case PutNextId(id) => id < 0x1_0000_0000_0000_0000
  }

  /** The dictionary as it is known in memory after a write was put in a batch. */
  function DictAfter(w: NS.Write, d: Dict): Dict
    requires Spellable(w, d)
  {
    match w case PutInode(_, inode) => Encode(RecordOf(inode), d).0 case _ => d
  }

  /** An inode whose owner or group is new takes the dictionary along. */
  function WithDict(inodes: map<Text, Text>, d: Dict): map<Text, Text>
  {
    inodes[InodeKey(OWNER_DICT_KEY) := SerializeList(d.owners.list)][InodeKey(GROUP_DICT_KEY) := SerializeList(d.groups.list)]
  }

  function WriteBytes(kv: Kv, w: NS.Write, d: Dict): Kv
    requires Spellable(w, d)
  {
    match w
    case PutInode(id, inode) =>
      var (e, bytes) := Encode(RecordOf(inode), d);
      var put := kv.inodes[InodeKey(id) := bytes];
      kv.(inodes := if e != d then WithDict(put, e) else put)
    case DeleteInode(id) => kv.(inodes := kv.inodes - {InodeKey(id)})
    case PutEdge(e, c) => kv.(edges := kv.edges[EdgeKey(e.parent, e.name) := Big(c, 8)])
    case DeleteEdge(e) => kv.(edges := kv.edges - {EdgeKey(e.parent, e.name)})
    case PutNextId(id) => kv.(inodes := kv.inodes[InodeKey(NEXT_ID_KEY) := Little(id, 8)])
  }

  // ---------- Each write does the same on both sides ----------

  lemma KeysApart(a: uint64, b: uint64)
    ensures InodeKey(a) == InodeKey(b) <==> a == b
  {
    InodeKeyOrder(a, b);
  }

  lemma ReservedApart()
    ensures InodeKey(OWNER_DICT_KEY) != InodeKey(GROUP_DICT_KEY)
    ensures InodeKey(OWNER_DICT_KEY) != InodeKey(NEXT_ID_KEY) && InodeKey(GROUP_DICT_KEY) != InodeKey(NEXT_ID_KEY)
  {
    KeysApart(OWNER_DICT_KEY, GROUP_DICT_KEY);
    KeysApart(OWNER_DICT_KEY, NEXT_ID_KEY);
    KeysApart(GROUP_DICT_KEY, NEXT_ID_KEY);
  }

  lemma PutInodeAt(kv: Kv, d: Dict, st: NS.Store, id: InodeId, inode: Inode, k: uint64)
    requires ValidDict(d) && Spellable(NS.PutInode(id, inode), d) && InodeCoded(kv, d, st, k)
    ensures InodeCoded(WriteBytes(kv, NS.PutInode(id, inode), d), Encode(RecordOf(inode), d).0, NS.ApplyWrite(st, NS.PutInode(id, inode)), k)
  {
    hide InodeKey, Encode, Reads, SerializeList, ValidDict;
    EncodeReads(RecordOf(inode), d);
    KeysApart(k, id);
    KeysApart(k, OWNER_DICT_KEY);
    KeysApart(k, GROUP_DICT_KEY);
    if k != id && k in st.inodes && k < OWNER_DICT_KEY {
      ReadsOn(kv.inodes[InodeKey(k)], d, Encode(RecordOf(inode), d).0, RecordOf(st.inodes[k]));
    }
  }

  lemma PutInodeCoded(kv: Kv, d: Dict, st: NS.Store, id: InodeId, inode: Inode)
    requires Coded(kv, d, st) && Spellable(NS.PutInode(id, inode), d)
    ensures var w, e := NS.PutInode(id, inode), Encode(RecordOf(inode), d).0;
            && Coded(WriteBytes(kv, w, d), e, NS.ApplyWrite(st, w))
            && (DictCoded(WriteBytes(kv, w, d), e) <==> e != d || DictCoded(kv, d))
  {
    hide InodeKey, EdgeKey, Encode, InodeCoded, SerializeList, DeserializeList, ValidDict, Behind, DictCoded;
    CodedIsValid(kv, d, st);
    var w := NS.PutInode(id, inode);
    var e, later, after := Encode(RecordOf(inode), d).0, WriteBytes(kv, w, d), NS.ApplyWrite(st, w);
    ReservedApart();
    KeysApart(id, NEXT_ID_KEY);
    forall k: uint64 ensures InodeCoded(later, e, after, k) { PutInodeAt(kv, d, st, id, inode, k); }
    forall p: uint64, n ensures EdgeCoded(later, after, p, n) { assert EdgeCoded(kv, st, p, n); }
    PutDictCoded(kv, d, RecordOf(inode), later, id);
    KeyLengths(id);
  }

  lemma KeyLengths(id: uint64)
    ensures |InodeKey(id)| == |InodeKey(OWNER_DICT_KEY)| == |InodeKey(GROUP_DICT_KEY)| == |InodeKey(NEXT_ID_KEY)| == 8
  {
  }

  lemma PutDictCoded(kv: Kv, d: Dict, r: Record, later: Kv, id: uint64)
    requires Behind(kv, d) && Storable(d, r) && id < OWNER_DICT_KEY
    requires var (e, bytes) := Encode(r, d);
             var put := kv.inodes[InodeKey(id) := bytes];
             later.inodes == if e != d then WithDict(put, e) else put
    ensures var e := Encode(r, d).0;
            Behind(later, e) && (DictCoded(later, e) <==> e != d || DictCoded(kv, d))
  {
    hide InodeKey, Pack, SerializeList, DeserializeList, Short, Valid, GetOrAdd;
    var (e, _) := Encode(r, d);
    EncodeReads(r, d);
    ShortAdd(d.owners, r.owner);
    ShortAdd(d.groups, r.group);
    BoundedList(e.owners);
    BoundedList(e.groups);
    ListRoundTrip(e.owners.list);
    ListRoundTrip(e.groups.list);
    ReservedApart();
    KeysApart(id, OWNER_DICT_KEY);
    KeysApart(id, GROUP_DICT_KEY);
  }

  lemma DeleteInodeCoded(kv: Kv, d: Dict, st: NS.Store, id: InodeId)
    requires Coded(kv, d, st) && id < OWNER_DICT_KEY
    ensures Coded(WriteBytes(kv, NS.DeleteInode(id), d), d, NS.ApplyWrite(st, NS.DeleteInode(id)))
    ensures DictCoded(WriteBytes(kv, NS.DeleteInode(id), d), d) <==> DictCoded(kv, d)
  {
    hide InodeKey, EdgeKey, Reads, DeserializeList, Short, Valid;
    var w := NS.DeleteInode(id);
    var later, after := WriteBytes(kv, w, d), NS.ApplyWrite(st, w);
    KeysApart(id, OWNER_DICT_KEY);
    KeysApart(id, GROUP_DICT_KEY);
    KeysApart(id, NEXT_ID_KEY);
    forall k: uint64 ensures InodeCoded(later, d, after, k) {
      assert InodeCoded(kv, d, st, k);
      KeysApart(k, id);
    }
    forall p: uint64, n ensures EdgeCoded(later, after, p, n) { assert EdgeCoded(kv, st, p, n); }
  }

  lemma EdgesApart(p: uint64, n: Name, q: uint64, m: Name)
    ensures EdgeKey(p, n) == EdgeKey(q, m) <==> p == q && n == m
  {
    EdgeKeyOrder(p, n, q, m);
  }

  lemma EdgeCodedAfter(kv: Kv, d: Dict, st: NS.Store, w: NS.Write)
    requires Coded(kv, d, st) && Spellable(w, d) && (w.PutEdge? || w.DeleteEdge?)
    ensures Coded(WriteBytes(kv, w, d), d, NS.ApplyWrite(st, w))
    ensures DictCoded(WriteBytes(kv, w, d), d) <==> DictCoded(kv, d)
  {
    hide InodeKey, EdgeKey, Big, Reads, Fits, RecordOf, DeserializeList, Short, ValidDict;
    var later, after := WriteBytes(kv, w, d), NS.ApplyWrite(st, w);
    EdgeKeyLength(w.edge.parent, w.edge.name);
    forall k: uint64 ensures InodeCoded(later, d, after, k) { assert InodeCoded(kv, d, st, k); }
    forall p: uint64, n ensures EdgeCoded(later, after, p, n) {
      assert EdgeCoded(kv, st, p, n);
      EdgesApart(p, n, w.edge.parent, w.edge.name);
    }
  }

  lemma EdgeKeyLength(p: uint64, n: Name)
    ensures |EdgeKey(p, n)| == 8 + |n|
  {
  }

  lemma CounterCodedAfter(kv: Kv, d: Dict, st: NS.Store, id: InodeId)
    requires Spellable(NS.PutNextId(id), d) && Coded(kv, d, st)
    ensures Coded(WriteBytes(kv, NS.PutNextId(id), d), d, NS.ApplyWrite(st, NS.PutNextId(id)))
    ensures DictCoded(WriteBytes(kv, NS.PutNextId(id), d), d) <==> DictCoded(kv, d)
  {
    hide InodeKey, EdgeKey, Reads, DeserializeList, Short, Valid, Little, FromLittle;
    var w := NS.PutNextId(id);
    var later, after := WriteBytes(kv, w, d), NS.ApplyWrite(st, w);
    Spans();
    LittleRoundTrip(id, 8);
    ReservedApart();
    KeyLengths(0);
    forall k: uint64 ensures InodeCoded(later, d, after, k) {
      assert InodeCoded(kv, d, st, k);
      KeysApart(k, NEXT_ID_KEY);
    }
    forall p: uint64, n ensures EdgeCoded(later, after, p, n) { assert EdgeCoded(kv, st, p, n); }
  }

  /** Every write, spelled in bytes, is the abstract write; one that brings a new name also brings the lists on disk up to date. */
  lemma WriteIsCoded(kv: Kv, d: Dict, st: NS.Store, w: NS.Write)
    requires Coded(kv, d, st) && Spellable(w, d)
    ensures Coded(WriteBytes(kv, w, d), DictAfter(w, d), NS.ApplyWrite(st, w))
    ensures DictCoded(WriteBytes(kv, w, d), DictAfter(w, d)) <==> DictAfter(w, d) != d || DictCoded(kv, d)
  {
    hide Coded, DictCoded, WriteBytes, NS.ApplyWrite;
    match w
    case PutInode(id, inode) => PutInodeCoded(kv, d, st, id, inode);
    case DeleteInode(id) => DeleteInodeCoded(kv, d, st, id);
    case PutEdge(_, _) => EdgeCodedAfter(kv, d, st, w);
    case DeleteEdge(_) => EdgeCodedAfter(kv, d, st, w);
    case PutNextId(id) => CounterCodedAfter(kv, d, st, id);
  }

  // ---------- Whole batches ----------

  ghost predicate SpellableBatch(b: NS.Batch, d: Dict)
    decreases |b|, 0
  {
    b == [] || (SpellableBatch(Init(b), d) && Spellable(Last(b), DictAfterBatch(Init(b), d)))
  }

  ghost function DictAfterBatch(b: NS.Batch, d: Dict): Dict
    requires SpellableBatch(b, d)
    decreases |b|, 1
  {
    if b == [] then d else DictAfter(Last(b), DictAfterBatch(Init(b), d))
  }

  ghost function WriteBatch(kv: Kv, b: NS.Batch, d: Dict): Kv
    requires SpellableBatch(b, d)
    decreases |b|
  {
    if b == [] then kv else WriteBytes(WriteBatch(kv, Init(b), d), Last(b), DictAfterBatch(Init(b), d))
  }

  lemma CodedIsValid(kv: Kv, d: Dict, st: NS.Store)
    requires Coded(kv, d, st)
    ensures ValidDict(d)
  {
  }

  /** A dictionary that has grown does not shrink back. */
  lemma DictOnlyGrows(w: NS.Write, d: Dict, mid: Dict)
    requires ValidDict(d) && ValidDict(mid) && Extends(d, mid) && Spellable(w, mid)
    ensures ValidDict(DictAfter(w, mid)) && Extends(d, DictAfter(w, mid))
    ensures DictAfter(w, mid) == d ==> mid == d
  {
    hide Valid, Encode;
    if w.PutInode? { EncodeReads(RecordOf(w.inode), mid); }
    if DictAfter(w, mid) == d {
      SameLists(mid.owners, d.owners);
      SameLists(mid.groups, d.groups);
    }
  }

  /** A committed batch of bytes is the committed abstract batch. */
  lemma {:induction false} BatchIsCoded(kv: Kv, d: Dict, st: NS.Store, b: NS.Batch)
    requires Coded(kv, d, st) && SpellableBatch(b, d)
    ensures Coded(WriteBatch(kv, b, d), DictAfterBatch(b, d), NS.Apply(st, b))
    ensures DictCoded(WriteBatch(kv, b, d), DictAfterBatch(b, d)) <==> DictAfterBatch(b, d) != d || DictCoded(kv, d)
    decreases |b|
  {
    hide Coded, DictCoded, WriteBytes, NS.ApplyWrite, Spellable, DictAfter, ValidDict, Extends;
    if b != [] {
      CodedIsValid(kv, d, st);
      BatchKeepsDict(Init(b), d);
      BatchIsCoded(kv, d, st, Init(b));
      DictOnlyGrows(Last(b), d, DictAfterBatch(Init(b), d));
      WriteIsCoded(WriteBatch(kv, Init(b), d), DictAfterBatch(Init(b), d), NS.Apply(st, Init(b)), Last(b));
    }
  }

  // ---------- Reading back ----------

  lemma {:induction false} BigInverse(b: seq<byte>)
    ensures Big(FromBig(b), |b|) == b
    decreases |b|
  {
    if b != [] {
      BigInverse(b[..|b| - 1]);
      var high, low := FromBig(b[..|b| - 1]), b[|b| - 1];
      assert (256 * high + low) / 256 == high && (256 * high + low) % 256 == low;
      assert b == b[..|b| - 1] + [b[|b| - 1]];
    }
  }

  /** The dictionary a reopened store loads. */
  function LoadedDict(kv: Kv): Dict
  {
    var owners, groups := ListAt(kv, OWNER_DICT_KEY), ListAt(kv, GROUP_DICT_KEY);
    Dict(Names(owners, IdsOf(owners)), Names(groups, IdsOf(groups)))
  }

  /** A key the scan for directories takes: not a reserved one, with the directory bit in byte 44 of its value. */
  predicate TakenAsDir(kv: Kv, key: Text)
    requires key in kv.inodes
  {
    var value := kv.inodes[key];
    !(|key| == 8 && FromBig(key) >= OWNER_DICT_KEY) && |value| >= HEADER && value[44] % 2 == 1
  }

  /** What the scan makes of it. */
  function ScannedInode(kv: Kv, key: Text, d: Dict): Inode
    requires key in kv.inodes
  {
    InodeOf(FromBig(key), Decode(kv.inodes[key], d))
  }

  /** The scans see exactly the directories and edges of the abstract store, before and after a restart. */
  lemma ScansAreExact(kv: Kv, d: Dict, st: NS.Store)
    requires Encodes(kv, d, st)
    ensures LoadedDict(kv) == d
    ensures forall key | key in kv.inodes ::
              TakenAsDir(kv, key) <==> FromBig(key) in st.inodes && st.inodes[FromBig(key)].isDir
    ensures forall key | key in kv.inodes && TakenAsDir(kv, key) :: ScannedInode(kv, key, d) == st.inodes[FromBig(key)]
    ensures forall id | id in st.inodes :: InodeKey(id) in kv.inodes && FromBig(InodeKey(id)) == id
    ensures forall key | key in kv.edges ::
              var (p, n) := DecodeEdgeKey(key);
              NS.Edge(p, n) in st.edges && FromBig(kv.edges[key]) == st.edges[NS.Edge(p, n)]
    ensures forall e | e in st.edges :: EdgeKey(e.parent, e.name) in kv.edges
  {
    hide InodeCoded, EdgeCoded, DictCoded, Behind, CounterCoded, Decode, FromBig, InodeKey, EdgeKey, DecodeEdgeKey, TakenAsDir, ScannedInode, LoadedDict;
    LoadedIsDict(kv, d, st);
    forall key | key in kv.inodes
      ensures TakenAsDir(kv, key) <==> FromBig(key) in st.inodes && st.inodes[FromBig(key)].isDir
      ensures TakenAsDir(kv, key) ==> ScannedInode(kv, key, d) == st.inodes[FromBig(key)]
    {
      ScanInode(kv, d, st, key);
    }
    forall id | id in st.inodes ensures InodeKey(id) in kv.inodes && FromBig(InodeKey(id)) == id {
      StoredKey(kv, d, st, id);
    }
    forall key | key in kv.edges
      ensures var (p, n) := DecodeEdgeKey(key);
              NS.Edge(p, n) in st.edges && FromBig(kv.edges[key]) == st.edges[NS.Edge(p, n)]
    {
      ScanEdge(kv, st, d, key);
    }
    forall e | e in st.edges ensures EdgeKey(e.parent, e.name) in kv.edges {
      StoredEdge(kv, d, st, e);
    }
  }

  lemma LoadedIsDict(kv: Kv, d: Dict, st: NS.Store)
    requires Encodes(kv, d, st)
    ensures LoadedDict(kv) == d
  {
    ValidIsRebuilt(d.owners);
    ValidIsRebuilt(d.groups);
  }

  lemma StoredKey(kv: Kv, d: Dict, st: NS.Store, id: InodeId)
    requires Encodes(kv, d, st) && id in st.inodes
    ensures id < OWNER_DICT_KEY && InodeKey(id) in kv.inodes && FromBig(InodeKey(id)) == id
  {
    assert InodeCoded(kv, d, st, id);
    InodeKeyRoundTrip(id);
  }

  lemma StoredEdge(kv: Kv, d: Dict, st: NS.Store, e: NS.Edge)
    requires Encodes(kv, d, st) && e in st.edges
    ensures e.parent < 0x1_0000_0000_0000_0000 && EdgeKey(e.parent, e.name) in kv.edges
  {
    assert EdgeCoded(kv, st, e.parent, e.name);
    assert e == NS.Edge(e.parent, e.name);
  }

  lemma ScanInode(kv: Kv, d: Dict, st: NS.Store, key: Text)
    requires Encodes(kv, d, st) && key in kv.inodes
    ensures TakenAsDir(kv, key) <==> FromBig(key) in st.inodes && st.inodes[FromBig(key)].isDir
    ensures TakenAsDir(kv, key) ==> ScannedInode(kv, key, d) == st.inodes[FromBig(key)]
  {
    hide Decode, Valid, FromBig, DictCoded, CounterCoded;
    var id := FromBig(key);
    BigInverse(key);
    BigBound(key);
    Spans();
    if id < OWNER_DICT_KEY {
      assert InodeCoded(kv, d, st, id);
      var value := kv.inodes[key];
      assert Reads(value, d, RecordOf(st.inodes[id])) && Extends(d, d);
      assert Decode(value, d) == RecordOf(st.inodes[id]);
      DirBit(value, d, RecordOf(st.inodes[id]));
    }
  }

  /** The directory bit of a value that reads as a record of at least some dictionary is the record's. */
  lemma DirBit(value: Text, d: Dict, r: Record)
    requires Decode(value, d) == r
    ensures |value| >= HEADER && value[44] % 2 == 1 <==> r.isDir
  {
  }

  lemma ScanEdge(kv: Kv, st: NS.Store, d: Dict, key: Text)
    requires Encodes(kv, d, st) && key in kv.edges
    ensures var (p, n) := DecodeEdgeKey(key);
            NS.Edge(p, n) in st.edges && FromBig(kv.edges[key]) == st.edges[NS.Edge(p, n)]
  {
    hide FromBig, Big, DictCoded, CounterCoded, InodeCoded;
    var (p, n) := DecodeEdgeKey(key);
    BigInverse(key[..8]);
    assert key == key[..8] + key[8..];
    assert EdgeKey(p, n) == key;
    assert EdgeCoded(kv, st, p, n);
    Spans();
    BigRoundTrip(st.edges[NS.Edge(p, n)], 8);
  }

  // ---------- Commits that fail ----------

  lemma SameLists(a: Names, b: Names)
    requires Valid(a) && Valid(b) && a.list == b.list
    ensures a == b
  {
    ValidIsRebuilt(a);
    ValidIsRebuilt(b);
  }

  lemma {:induction false} BatchKeepsDict(b: NS.Batch, d: Dict)
    requires ValidDict(d) && SpellableBatch(b, d)
    ensures ValidDict(DictAfterBatch(b, d)) && Extends(d, DictAfterBatch(b, d))
    decreases |b|
  {
    hide Valid, Encode;
    if b != [] {
      var mid := DictAfterBatch(Init(b), d);
      BatchKeepsDict(Init(b), d);
      if Last(b).PutInode? { EncodeReads(RecordOf(Last(b).inode), mid); }
    }
  }

  lemma {:induction false} BatchKeepsShort(b: NS.Batch, d: Dict)
    requires Short(d.owners.list) && Short(d.groups.list) && SpellableBatch(b, d)
    ensures Short(DictAfterBatch(b, d).owners.list) && Short(DictAfterBatch(b, d).groups.list)
    decreases |b|
  {
    hide Short, Pack;
    if b != [] {
      BatchKeepsShort(Init(b), d);
      if Last(b).PutInode? {
        var mid, r := DictAfterBatch(Init(b), d), RecordOf(Last(b).inode);
        ShortAdd(mid.owners, r.owner);
        ShortAdd(mid.groups, r.group);
      }
    }
  }

  lemma CodedOn(kv: Kv, d: Dict, e: Dict, st: NS.Store)
    requires Coded(kv, d, st) && Extends(d, e) && ValidDict(e) && Short(e.owners.list) && Short(e.groups.list)
    ensures Coded(kv, e, st)
  {
    hide Valid, Reads, Short, EdgeCoded, CounterCoded, InKeySpace;
    forall id: uint64 ensures InodeCoded(kv, e, st, id) {
      assert InodeCoded(kv, d, st, id);
      if id < OWNER_DICT_KEY && id in st.inodes { ReadsOn(kv.inodes[InodeKey(id)], d, e, RecordOf(st.inodes[id])); }
    }
  }

  /** New names in memory leave the lists on disk behind. */
  lemma FallsBehind(kv: Kv, d: Dict, e: Dict)
    requires Behind(kv, d) && Extends(d, e) && ValidDict(e) && e != d
    ensures !DictCoded(kv, e)
  {
    hide Valid, Short;
    if DictCoded(kv, e) {
      SameLists(e.owners, d.owners);
      SameLists(e.groups, d.groups);
    }
  }

  /**
   * A batch counts its new names as persisted even when it does not commit.  Memory and disk still
   * agree afterwards exactly if they did before and the batch brought no new owner or group.
   */
  lemma FailedBatch(kv: Kv, d: Dict, st: NS.Store, b: NS.Batch)
    requires Coded(kv, d, st) && SpellableBatch(b, d)
    ensures Coded(kv, DictAfterBatch(b, d), st)
    ensures DictCoded(kv, DictAfterBatch(b, d)) <==> DictAfterBatch(b, d) == d && DictCoded(kv, d)
  {
    hide Valid, InodeCoded, EdgeCoded, CounterCoded, InKeySpace, Short, DictAfterBatch;
    var e := DictAfterBatch(b, d);
    BatchKeepsDict(b, d);
    BatchKeepsShort(b, d);
    CodedOn(kv, d, e, st);
    if e != d { FallsBehind(kv, d, e); }
  }

  lemma EmptyIsCoded()
    ensures Encodes(Kv(map[], map[]), Dict(Names([], map[]), Names([], map[])), NS.EMPTY_STORE)
  {
    var kv, d := Kv(map[], map[]), Dict(Names([], map[]), Names([], map[]));
    forall id: uint64 ensures InodeCoded(kv, d, NS.EMPTY_STORE, id) { }
    forall p: uint64, n ensures EdgeCoded(kv, NS.EMPTY_STORE, p, n) { }
  }

  /** An owner whose first put fails to commit is never written to disk: after a restart it is gone. */
  lemma FailedPutLosesName(inode: Inode)
    requires Fits(inode) && |inode.owner| == 1 && inode.group == []
    ensures var kv, d := Kv(map[], map[]), Dict(Names([], map[]), Names([], map[]));
            var w := NS.PutInode(2, inode);
            && Spellable(w, d) && Spellable(w, DictAfter(w, d))
            && var after := WriteBytes(kv, w, DictAfter(w, d));
               InodeKey(2) in after.inodes
               && Decode(after.inodes[InodeKey(2)], LoadedDict(after)) == RecordOf(inode).(owner := [])
  {
    hide Pack, Decode, InodeKey;
    var kv, d := Kv(map[], map[]), Dict(Names([], map[]), Names([], map[]));
    var w := NS.PutInode(2, inode);
    var e := DictAfter(w, d);
    assert e.owners == Names([inode.owner], map[inode.owner := 1]) && e.groups == d.groups;
    var after := WriteBytes(kv, w, e);
    KeysApart(2, OWNER_DICT_KEY);
    KeysApart(2, GROUP_DICT_KEY);
    assert ListAt(after, OWNER_DICT_KEY) == [] == ListAt(after, GROUP_DICT_KEY);
    PackRoundTrip(RecordOf(inode), 1, 0, LoadedDict(after));
  }

  // ---------- Whole runs ----------

  datatype Commit = Commit(batch: NS.Batch, ok: bool)

  /** Batches that can be spelled, whether they commit or not. */
  ghost predicate IsRun(d: Dict, run: seq<Commit>)
    decreases |run|
  {
    run == [] ||
    (SpellableBatch(run[0].batch, d) && IsRun(DictAfterBatch(run[0].batch, d), run[1..]))
  }

  ghost function BytesAfter(kv: Kv, d: Dict, run: seq<Commit>): Kv
    requires IsRun(d, run)
    decreases |run|
  {
    if run == [] then kv
    else BytesAfter(if run[0].ok then WriteBatch(kv, run[0].batch, d) else kv, DictAfterBatch(run[0].batch, d), run[1..])
  }

  ghost function NamesAfter(d: Dict, run: seq<Commit>): Dict
    requires IsRun(d, run)
    decreases |run|
  {
    if run == [] then d else NamesAfter(DictAfterBatch(run[0].batch, d), run[1..])
  }

  ghost function StoreAfter(st: NS.Store, run: seq<Commit>): NS.Store
    decreases |run|
  {
    if run == [] then st else StoreAfter(if run[0].ok then NS.Apply(st, run[0].batch) else st, run[1..])
  }

  /** The last batch that brought a new owner or group was committed; without any, what held before the run. */
  ghost predicate Settled(d: Dict, run: seq<Commit>, before: bool)
    requires IsRun(d, run)
    decreases |run|
  {
    if run == [] then before else
    var e := DictAfterBatch(run[0].batch, d);
    Settled(e, run[1..], if e != d then run[0].ok else before)
  }

  lemma LoadedWhenSettled(kv: Kv, d: Dict, st: NS.Store)
    requires Coded(kv, d, st)
    ensures LoadedDict(kv) == d <==> DictCoded(kv, d)
  {
    ValidIsRebuilt(d.owners);
    ValidIsRebuilt(d.groups);
  }

  lemma CommitIsCoded(kv: Kv, d: Dict, st: NS.Store, c: Commit)
    requires Coded(kv, d, st) && SpellableBatch(c.batch, d)
    ensures var e := DictAfterBatch(c.batch, d);
            var later := if c.ok then WriteBatch(kv, c.batch, d) else kv;
            && Coded(later, e, if c.ok then NS.Apply(st, c.batch) else st)
            && (DictCoded(later, e) <==> if e != d then c.ok else DictCoded(kv, d))
  {
    hide Coded, DictCoded, SpellableBatch, DictAfterBatch, WriteBatch, NS.Apply;
    if c.ok { BatchIsCoded(kv, d, st, c.batch); } else { FailedBatch(kv, d, st, c.batch); }
  }

  /**
   * After any run of commits and failures the bytes, read with the dictionary in memory, stand for
   * the abstract store.  A restart loads that dictionary if and only if the last batch that brought
   * a new name was committed.
   */
  lemma {:induction false} RunsAreCoded(kv: Kv, d: Dict, st: NS.Store, run: seq<Commit>)
    requires Coded(kv, d, st) && IsRun(d, run)
    ensures Coded(BytesAfter(kv, d, run), NamesAfter(d, run), StoreAfter(st, run))
    ensures Encodes(BytesAfter(kv, d, run), NamesAfter(d, run), StoreAfter(st, run)) <==> Settled(d, run, DictCoded(kv, d))
    ensures LoadedDict(BytesAfter(kv, d, run)) == NamesAfter(d, run) <==> Settled(d, run, DictCoded(kv, d))
    decreases |run|
  {
    hide Coded, DictCoded, SpellableBatch, DictAfterBatch, WriteBatch, NS.Apply, LoadedDict;
    if run == [] {
      LoadedWhenSettled(kv, d, st);
    } else {
      var c := run[0];
      CommitIsCoded(kv, d, st, c);
      RunsAreCoded(if c.ok then WriteBatch(kv, c.batch, d) else kv, DictAfterBatch(c.batch, d),
                   if c.ok then NS.Apply(st, c.batch) else st, run[1..]);
    }
  }
}
