/**
 * How inodes and edges are spelled in the store: big-endian keys that sort as numbers, a 48-byte
 * header followed by the name, and one-byte ids for owners and groups from a dictionary that grows.
 */
module InodeCodecs {
  import opened Common
  import opened Bytes

  type Name = Text

  // ---------- Keys ----------

  const OWNER_DICT_KEY: uint64 := 0xFFFF_FFFF_FFFF_FFFD
  const GROUP_DICT_KEY: uint64 := 0xFFFF_FFFF_FFFF_FFFE
  const NEXT_ID_KEY: uint64 := 0xFFFF_FFFF_FFFF_FFFF

  function InodeKey(id: uint64): seq<byte> { Big(id, 8) }

  function EdgeKey(parent: uint64, name: Name): seq<byte> { Big(parent, 8) + name }

  /** A key too short for a parent id decodes to no edge. */
  function DecodeEdgeKey(key: seq<byte>): (uint64, Name)
  {
    if |key| < 8 then (0, []) else
    BigBound(key[..8]);
    Spans();
    (FromBig(key[..8]), key[8..])
  }

  lemma InodeKeyRoundTrip(id: uint64)
    ensures FromBig(InodeKey(id)) == id
  {
    Spans();
    BigRoundTrip(id, 8);
  }

  /** Keys sort as ids do, so no two ids share a key. */
  lemma InodeKeyOrder(a: uint64, b: uint64)
    ensures Before(InodeKey(a), InodeKey(b)) <==> a < b
    ensures InodeKey(a) == InodeKey(b) <==> a == b
  {
    Spans();
    BigOrder(a, b, 8);
    BigOrder(b, a, 8);
    BeforeIrreflexive(InodeKey(a));
  }

  /** The reserved keys are the last three; an inode has one of them exactly if its id does. */
  lemma ReservedKeys(id: uint64)
    ensures InodeKey(id) in {InodeKey(OWNER_DICT_KEY), InodeKey(GROUP_DICT_KEY), InodeKey(NEXT_ID_KEY)} <==> id >= OWNER_DICT_KEY
    ensures id < OWNER_DICT_KEY ==> Before(InodeKey(id), InodeKey(OWNER_DICT_KEY))
  {
    InodeKeyOrder(id, OWNER_DICT_KEY);
    InodeKeyOrder(id, GROUP_DICT_KEY);
    InodeKeyOrder(id, NEXT_ID_KEY);
  }

  lemma EdgeKeyRoundTrip(parent: uint64, name: Name)
    ensures DecodeEdgeKey(EdgeKey(parent, name)) == (parent, name)
  {
    InodeKeyRoundTrip(parent);
    assert EdgeKey(parent, name)[..8] == InodeKey(parent) && EdgeKey(parent, name)[8..] == name;
  }

  /** Edges sort by parent and then by name; all edges of one parent share its key as prefix, and no others do. */
  lemma EdgeKeyOrder(p: uint64, n: Name, q: uint64, m: Name)
    ensures Before(EdgeKey(p, n), EdgeKey(q, m)) <==> p < q || (p == q && Before(n, m))
    ensures EdgeKey(p, n) == EdgeKey(q, m) <==> p == q && n == m
    ensures InodeKey(p) <= EdgeKey(q, m) <==> p == q
  {
    InodeKeyOrder(p, q);
    BeforeConcat(InodeKey(p), n, InodeKey(q), m);
    EdgeKeyRoundTrip(p, n);
    EdgeKeyRoundTrip(q, m);
    assert EdgeKey(q, m)[..8] == InodeKey(q);
  }

  // ---------- The dictionary ----------

  /** Names in the order of their ids, which start at 1; and the way back from a name to its id. */
  datatype Names = Names(list: seq<Name>, ids: map<Name, byte>)

  ghost predicate Valid(d: Names)
  {
    && |d.list| <= 255 && d.ids.Keys == Elements(d.list) && [] !in d.list
    && forall i | 0 <= i < |d.list| :: d.list[i] in d.ids && d.ids[d.list[i]] == i + 1
  }

  /** Whether a name has, or can still get, an id; the empty name needs none. */
  predicate Assignable(d: Names, s: Name)
  {
    s == [] || s in d.ids || |d.list| < 255
  }

  /** With 255 names the dictionary is full and a new name counts as empty. */
  function GetOrAdd(d: Names, s: Name): (Names, byte)
  {
    if s == [] then (d, 0)
    else if s in d.ids then (d, d.ids[s])
    else if |d.list| >= 255 then (d, 0)
    else (Names(d.list + [s], d.ids[s := |d.list| + 1]), |d.list| + 1)
  }

  function Lookup(list: seq<Name>, id: byte): Name
  {
    if id == 0 || id > |list| then [] else list[id - 1]
  }

  /** The id leads back to the name under this and every later dictionary, exactly if the name could be assigned one. */
  lemma GetOrAddKeeps(d: Names, s: Name, later: seq<Name>)
    requires Valid(d) && GetOrAdd(d, s).0.list <= later
    ensures var (e, id) := GetOrAdd(d, s);
            && Valid(e) && d.list <= e.list
            && Lookup(later, id) == if Assignable(d, s) then s else []
  {
    var (e, id) := GetOrAdd(d, s);
    if s in d.ids {
      var i :| 0 <= i < |d.list| && d.list[i] == s;
      assert later[i] == e.list[i];
    } else if s != [] && |d.list| < 255 {
      assert Elements(d.list + [s]) == Elements(d.list) + {s};
      assert later[|d.list|] == e.list[|d.list|];
    }
  }

  // ---------- Persisting the dictionary ----------

  function Capped(s: Name): (r: Name)
    ensures |r| == Min(|s|, 255)
  {
    s[..Min(|s|, 255)]
  }

  function Spell(list: seq<Name>): seq<byte>
  {
    if list == [] then [] else [|Capped(list[0])|] + Capped(list[0]) + Spell(list[1..])
  }

  /** A count, then every name behind its length; both are cut to one byte. */
  function SerializeList(list: seq<Name>): seq<byte>
  {
    [Min(|list|, 255)] + Spell(list)
  }

  function ReadNames(data: seq<byte>, count: nat): seq<Name>
    decreases count
  {
    if count == 0 || data == [] then [] else
    var n := Min(data[0], |data| - 1);
    [data[1..1 + n]] + ReadNames(data[1 + n..], count - 1)
  }

  function DeserializeList(data: seq<byte>): seq<Name>
  {
    if data == [] then [] else ReadNames(data[1..], data[0])
  }

  predicate Short(list: seq<Name>) { forall i | 0 <= i < |list| :: |list[i]| <= 255 }

  lemma {:induction false} ReadSpelled(list: seq<Name>, count: nat)
    ensures var r := ReadNames(Spell(list), count);
            |r| == Min(count, |list|) && forall i | 0 <= i < |r| :: r[i] == Capped(list[i])
    decreases |list|
  {
    hide Capped;
    if list != [] && count > 0 {
      var first, rest := Capped(list[0]), Spell(list[1..]);
      var data := Spell(list);
      assert data[1..1 + |first|] == first && data[1 + |first|..] == rest;
      ReadSpelled(list[1..], count - 1);
    }
  }

  /** The list survives persisting exactly if it has at most 255 names of at most 255 bytes. */
  lemma ListRoundTrip(list: seq<Name>)
    ensures DeserializeList(SerializeList(list)) == list <==> |list| <= 255 && Short(list)
  {
    ReadSpelled(list, Min(|list|, 255));
    assert SerializeList(list)[1..] == Spell(list);
    var r := DeserializeList(SerializeList(list));
    if r == list {
      forall i | 0 <= i < |list| ensures |list[i]| <= 255 { assert r[i] == Capped(list[i]); }
    }
    if |list| <= 255 && Short(list) {
      forall i | 0 <= i < |list| ensures r[i] == list[i] { assert Capped(list[i]) == list[i]; }
    }
  }

  // ---------- Inodes ----------

  /** What a value of the store says about an inode: all but its id and its children. */
  datatype Record = Record(
    parent: uint64, size: uint64, blockSize: uint64, ctime: int64, mtime: int64, mode: uint32,
    isDir: bool, isComplete: bool, owner: Name, group: Name, name: Name)

  /** What a value too short for the header decodes to. */
  const BLANK: Record := Record(0, 0, 0x400_0000, 0, 0, 420, false, true, [], [], [])

  const HEADER: nat := 48

  function Flags(r: Record): byte { (if r.isDir then 1 else 0) + (if r.isComplete then 2 else 0) }

  function Numbers(r: Record): (b: seq<byte>)
    ensures |b| == 44
  {
    Little(r.parent, 8) + Little(r.size, 8) + Little(r.blockSize, 8)
    + Little(Word(r.ctime), 8) + Little(Word(r.mtime), 8) + Little(r.mode, 4)
  }

  function Pack(r: Record, ownerId: byte, groupId: byte): (b: seq<byte>)
    ensures |b| == HEADER + |r.name|
  {
    Numbers(r) + [Flags(r), ownerId, groupId, 0] + r.name
  }

  datatype Dict = Dict(owners: Names, groups: Names)

  ghost predicate ValidDict(d: Dict) { Valid(d.owners) && Valid(d.groups) }

  predicate Extends(d: Dict, e: Dict) { d.owners.list <= e.owners.list && d.groups.list <= e.groups.list }

  /** Serializing may extend the dictionary. */
  function Encode(r: Record, d: Dict): (Dict, seq<byte>)
  {
    var (owners, o) := GetOrAdd(d.owners, r.owner);
    var (groups, g) := GetOrAdd(d.groups, r.group);
    (Dict(owners, groups), Pack(r, o, g))
  }

  function Number(b: seq<byte>): (n: uint64)
    requires |b| == 8
  {
    LittleBound(b);
    Spans();
    FromLittle(b)
  }

  function Decode(b: seq<byte>, d: Dict): Record
  {
    if |b| < HEADER then BLANK else
    LittleBound(b[40..44]);
    Spans();
    Record(Number(b[..8]), Number(b[8..16]), Number(b[16..24]), Signed(Number(b[24..32])), Signed(Number(b[32..40])),
           FromLittle(b[40..44]), b[44] % 2 == 1, b[44] / 2 % 2 == 1,
           Lookup(d.owners.list, b[45]), Lookup(d.groups.list, b[46]), b[48..])
  }

  /** Everything but the two names is read back as it was written. */
  lemma PackRoundTrip(r: Record, o: byte, g: byte, d: Dict)
    ensures Decode(Pack(r, o, g), d) == r.(owner := Lookup(d.owners.list, o), group := Lookup(d.groups.list, g))
  {
    hide Little, FromLittle;
    Spans();
    LittleRoundTrip(r.parent, 8);
    LittleRoundTrip(r.size, 8);
    LittleRoundTrip(r.blockSize, 8);
    LittleRoundTrip(Word(r.ctime), 8);
    LittleRoundTrip(Word(r.mtime), 8);
    LittleRoundTrip(r.mode, 4);
    PackParts(r, o, g);
  }

  /** Where the fields lie in the 48-byte header, and the name behind it. */
  lemma PackParts(r: Record, o: byte, g: byte)
    ensures var b := Pack(r, o, g);
            && b[..8] == Little(r.parent, 8) && b[8..16] == Little(r.size, 8) && b[16..24] == Little(r.blockSize, 8)
            && b[24..32] == Little(Word(r.ctime), 8) && b[32..40] == Little(Word(r.mtime), 8) && b[40..44] == Little(r.mode, 4)
            && b[44] == (if r.isDir then 1 else 0) + (if r.isComplete then 2 else 0) && b[45] == o && b[46] == g && b[47] == 0
            && b[48..] == r.name
  {
    hide Little;
  }

  /** A stored inode decodes to itself under every later dictionary exactly if both its names could be assigned ids. */
  lemma InodeRoundTrip(r: Record, d: Dict, later: Dict)
    requires ValidDict(d) && Extends(Encode(r, d).0, later)
    ensures ValidDict(Encode(r, d).0) && Extends(d, Encode(r, d).0)
    ensures Decode(Encode(r, d).1, later) == r <==> Assignable(d.owners, r.owner) && Assignable(d.groups, r.group)
  {
    hide Pack, Decode, Valid, GetOrAdd, Lookup;
    GetOrAddKeeps(d.owners, r.owner, later.owners.list);
    GetOrAddKeeps(d.groups, r.group, later.groups.list);
    var (_, o) := GetOrAdd(d.owners, r.owner);
    var (_, g) := GetOrAdd(d.groups, r.group);
    PackRoundTrip(r, o, g, later);
  }

  // ---------- The dictionary across restarts ----------

  /** The way back from names to ids, rebuilt from the list. */
  function IdsOf(list: seq<Name>): map<Name, byte>
  {
    if list == [] then map[] else IdsOf(list[..|list| - 1])[list[|list| - 1] := |list| % 256]
  }

  lemma {:induction false} IdsOfDistinct(list: seq<Name>)
    requires |list| <= 255 && forall i, j | 0 <= i < j < |list| :: list[i] != list[j]
    ensures IdsOf(list).Keys == Elements(list)
    ensures forall i | 0 <= i < |list| :: list[i] in IdsOf(list) && IdsOf(list)[list[i]] == i + 1
    decreases |list|
  {
    hide Elements;
    var n := |list|;
    if n == 0 {
      assert list == [];
      ElementsSnoc([], []);
    } else {
      var rest, last := list[..n - 1], list[n - 1];
      IdsOfDistinct(rest);
      assert list == rest + [last];
      ElementsSnoc(rest, last);
      forall i | 0 <= i < n ensures list[i] in IdsOf(list) && IdsOf(list)[list[i]] == i + 1 {
        if i < n - 1 { assert rest[i] in IdsOf(rest) && rest[i] != last; }
      }
    }
  }

  lemma ElementsSnoc(list: seq<Name>, last: Name)
    ensures Elements(list + [last]) == Elements(list) + {last} && Elements<Name>([]) == {}
  {
  }

  lemma ValidIsRebuilt(d: Names)
    requires Valid(d)
    ensures IdsOf(d.list) == d.ids
  {
    forall i, j | 0 <= i < j < |d.list| ensures d.list[i] != d.list[j] {
      assert d.ids[d.list[i]] == i + 1 && d.ids[d.list[j]] == j + 1;
    }
    IdsOfDistinct(d.list);
    forall s | s in d.ids ensures IdsOf(d.list)[s] == d.ids[s] {
      var i :| 0 <= i < |d.list| && d.list[i] == s;
    }
  }

  function Loaded(data: seq<byte>): Names { Names(DeserializeList(data), IdsOf(DeserializeList(data))) }

  /** The value reads as this record under the dictionary and all its extensions. */
  ghost predicate Reads(b: seq<byte>, d: Dict, r: Record)
  {
    forall later {:trigger Decode(b, later)} | Extends(d, later) :: Decode(b, later) == r
  }

  predicate Storable(d: Dict, r: Record)
  {
    Assignable(d.owners, r.owner) && Assignable(d.groups, r.group) && |r.owner| <= 255 && |r.group| <= 255
  }

  lemma EncodeReads(r: Record, d: Dict)
    requires ValidDict(d) && Storable(d, r)
    ensures var (e, b) := Encode(r, d); ValidDict(e) && Extends(d, e) && Reads(b, e, r)
  {
    hide Decode, Pack, Valid;
    var (e, b) := Encode(r, d);
    forall later | Extends(e, later) ensures Decode(b, later) == r { InodeRoundTrip(r, d, later); }
    InodeRoundTrip(r, d, e);
  }

  lemma ReadsOn(b: seq<byte>, d: Dict, e: Dict, r: Record)
    requires Reads(b, d, r) && Extends(d, e)
    ensures Reads(b, e, r)
  {
    hide Decode;
    forall later | Extends(e, later) ensures Decode(b, later) == r { assert Extends(d, later); }
  }

  lemma ShortAdd(d: Names, s: Name)
    requires Short(d.list) && |s| <= 255
    ensures Short(GetOrAdd(d, s).0.list)
  {
  }

  lemma BoundedList(d: Names)
    requires Valid(d)
    ensures |d.list| <= 255
  {
  }

  // ---------- The object ----------

  method WriteList(list: seq<Name>) returns (data: seq<byte>)
    ensures data == SerializeList(list)
  {
    hide Capped;
    data := [Min(|list|, 255)];
    assert list[0..] == list;
    for i := 0 to |list|
      invariant SerializeList(list) == data + Spell(list[i..])
    {
      var s := Capped(list[i]);
      assert list[i..][1..] == list[i + 1..];
      Reassociate(data, [|s|] + s, Spell(list[i + 1..]));
      data := data + ([|s|] + s);
    }
  }

  lemma Reassociate<T>(a: seq<T>, b: seq<T>, c: seq<T>)
    ensures a + (b + c) == (a + b) + c
  {
  }

  method ReadList(data: seq<byte>) returns (list: seq<Name>)
    ensures list == DeserializeList(data)
  {
    list := [];
    if data == [] { return; }
    var count, i := data[0], 0;
    var rest := data[1..];
    while i < count && rest != []
      invariant 0 <= i <= count
      invariant DeserializeList(data) == list + ReadNames(rest, count - i)
    {
      var n := Min(rest[0], |rest| - 1);
      Reassociate(list, [rest[1..1 + n]], ReadNames(rest[1 + n..], count - i - 1));
      list := list + [rest[1..1 + n]];
      rest := rest[1 + n..];
      i := i + 1;
    }
  }

  method RebuildMap(list: seq<Name>) returns (ids: map<Name, byte>)
    ensures ids == IdsOf(list)
  {
    ids := map[];
    for i := 0 to |list|
      invariant ids == IdsOf(list[..i])
    {
      assert list[..i + 1][..i] == list[..i];
      ids := ids[list[i] := (i + 1) % 256];
    }
    assert list[..|list|] == list;
  }

  class OwnerGroupDict {
    var owners: seq<Name>
    var groups: seq<Name>
    var ownerIds: map<Name, byte>
    var groupIds: map<Name, byte>
    var dirty: bool

    constructor ()
      ensures View() == Dict(Names([], map[]), Names([], map[])) && ValidDict(View()) && !dirty
    {
      owners, groups, ownerIds, groupIds, dirty := [], [], map[], map[], false;
    }

    function View(): Dict
      reads this
    {
      Dict(Names(owners, ownerIds), Names(groups, groupIds))
    }

    method GetOrAddOwnerId(s: Name) returns (id: byte)
      modifies this
      ensures (View().owners, id) == GetOrAdd(old(View()).owners, s) && View().groups == old(View()).groups
      ensures dirty == (old(dirty) || View() != old(View()))
    {
      if s == [] { return 0; }
      if s in ownerIds { return ownerIds[s]; }
      if |owners| >= 255 { return 0; }
      owners := owners + [s];
      id := |owners|;
      ownerIds := ownerIds[s := id];
      dirty := true;
    }

    method GetOrAddGroupId(s: Name) returns (id: byte)
      modifies this
      ensures (View().groups, id) == GetOrAdd(old(View()).groups, s) && View().owners == old(View()).owners
      ensures dirty == (old(dirty) || View() != old(View()))
    {
      if s == [] { return 0; }
      if s in groupIds { return groupIds[s]; }
      if |groups| >= 255 { return 0; }
      groups := groups + [s];
      id := |groups|;
      groupIds := groupIds[s := id];
      dirty := true;
    }

    method Load(ownerData: seq<byte>, groupData: seq<byte>)
      modifies this
      ensures View() == Dict(Loaded(ownerData), Loaded(groupData)) && !dirty
    {
      owners := ReadList(ownerData);
      ownerIds := RebuildMap(owners);
      groups := ReadList(groupData);
      groupIds := RebuildMap(groups);
      dirty := false;
    }

    method SerializeInode(r: Record) returns (bytes: seq<byte>)
      modifies this
      ensures (View(), bytes) == Encode(r, old(View()))
      ensures dirty == (old(dirty) || View() != old(View()))
    {
      hide GetOrAdd, Pack;
      var o := GetOrAddOwnerId(r.owner);
      var g := GetOrAddGroupId(r.group);
      bytes := Pack(r, o, g);
    }
  }
}
