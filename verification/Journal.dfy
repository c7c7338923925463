/**
 * The master's journal: every entry is one frame, a 4-byte length followed by a 20-byte header and
 * the payload.  Replay reads frames until the bytes run out or a length makes no sense.
 */
module Journals {
  import opened Common
  import opened Bytes

  datatype Entry = Entry(sequence: uint64, time: int64, kind: uint32, payload: seq<byte>)

  const HEADER: nat := 20
  const MAX_FRAME: nat := 0x400_0000

  // ---------- One entry ----------

  function Serialize(e: Entry): (r: seq<byte>)
    ensures |r| == HEADER + |e.payload|
  {
    Little(e.sequence, 8) + Little(Word(e.time), 8) + Little(e.kind, 4) + e.payload
  }

  /** A string shorter than the header leaves the entry as it was made: fields unset, payload empty. */
  function Deserialize(data: seq<byte>, unset: Entry): Entry
  {
    if |data| < HEADER then unset.(payload := []) else
    LittleBound(data[..8]);
    LittleBound(data[8..16]);
    LittleBound(data[16..20]);
    Spans();
    Entry(FromLittle(data[..8]), Signed(FromLittle(data[8..16])), FromLittle(data[16..20]), data[20..])
  }

  /** Where the fields lie, and what stands before them in the log. */
  lemma EntryLayout(e: Entry)
    ensures var d := Serialize(e);
            && d[..8] == Little(e.sequence, 8) && d[8..16] == Little(Word(e.time), 8) && d[16..20] == Little(e.kind, 4) && d[20..] == e.payload
            && Frame(e)[..4] == Little(|d| % 0x1_0000_0000, 4) && Frame(e)[4..] == d
  {
    hide Little;
  }

  lemma EntryRoundTrip(e: Entry, unset: Entry)
    ensures Deserialize(Serialize(e), unset) == e
  {
    Spans();
    LittleRoundTrip(e.sequence, 8);
    LittleRoundTrip(Word(e.time), 8);
    LittleRoundTrip(e.kind, 4);
    EntryLayout(e);
  }

  // ---------- The log ----------

  /** The length field has 32 bits, whatever the size. */
  function Frame(e: Entry): (r: seq<byte>)
    ensures |r| == 4 + HEADER + |e.payload|
  {
    Little(|Serialize(e)| % 0x1_0000_0000, 4) + Serialize(e)
  }

  function Log(es: seq<Entry>): seq<byte>
  {
    if es == [] then [] else Frame(es[0]) + Log(es[1..])
  }

  predicate Fits(e: Entry) { |Serialize(e)| <= MAX_FRAME }

  /** The length announced by the next frame, if its four bytes are there and the length makes sense. */
  function NextLength(bytes: seq<byte>): (r: Option<nat>)
    ensures r.Some? ==> 0 < r.value <= MAX_FRAME
  {
    if |bytes| < 4 then None else
    var len := FromLittle(bytes[..4]);
    if len == 0 || len > MAX_FRAME then None else Some(len)
  }

  function Replayed(bytes: seq<byte>, unset: Entry): seq<Entry>
    decreases |bytes|
  {
    match NextLength(bytes)
    case None => []
    case Some(len) =>
      if |bytes| < 4 + len then []
      else [Deserialize(bytes[4..4 + len], unset)] + Replayed(bytes[4 + len..], unset)
  }

  /** How many of the entries lie wholly within the first `k` bytes of their log. */
  function Whole(es: seq<Entry>, k: nat): nat
  {
    if es == [] || k < |Frame(es[0])| then 0 else 1 + Whole(es[1..], k - |Frame(es[0])|)
  }

  lemma FrameLength(e: Entry, rest: seq<byte>, k: nat)
    requires Fits(e) && 4 <= k <= |Frame(e) + rest|
    ensures NextLength((Frame(e) + rest)[..k]) == Some(|Serialize(e)|)
  {
    hide Little, FromLittle, Serialize;
    Spans();
    LittleRoundTrip(|Serialize(e)|, 4);
    assert (Frame(e) + rest)[..k][..4] == Little(|Serialize(e)|, 4);
  }

  lemma FrameBody(e: Entry, rest: seq<byte>, k: nat)
    requires |Frame(e)| <= k <= |Frame(e) + rest|
    ensures (Frame(e) + rest)[..k][4..|Frame(e)|] == Serialize(e)
    ensures (Frame(e) + rest)[..k][|Frame(e)|..] == rest[..k - |Frame(e)|]
  {
    hide Little, Serialize;
  }

  /** One whole frame at the front is one entry. */
  lemma ReplayOne(e: Entry, rest: seq<byte>, k: nat, unset: Entry)
    requires Fits(e) && |Frame(e)| <= k <= |Frame(e) + rest|
    ensures Replayed((Frame(e) + rest)[..k], unset) == [e] + Replayed(rest[..k - |Frame(e)|], unset)
  {
    hide Deserialize, Serialize, NextLength, Frame;
    FrameLength(e, rest, k);
    FrameBody(e, rest, k);
    EntryRoundTrip(e, unset);
  }

  /** Replaying any byte prefix of a log yields exactly the entries wholly contained in it. */
  lemma {:induction false} TornTailReplay(es: seq<Entry>, k: nat, unset: Entry)
    requires (forall i | 0 <= i < |es| :: Fits(es[i])) && k <= |Log(es)|
    ensures Whole(es, k) <= |es| && Replayed(Log(es)[..k], unset) == es[..Whole(es, k)]
    decreases |es|
  {
    hide Deserialize, Serialize, Frame;
    if es != [] && k >= 4 {
      var e, rest := es[0], Log(es[1..]);
      if k >= |Frame(e)| {
        ReplayOne(e, rest, k, unset);
        TornTailReplay(es[1..], k - |Frame(e)|, unset);
        assert es[..Whole(es, k)] == [e] + es[1..][..Whole(es[1..], k - |Frame(e)|)];
      } else {
        FrameLength(e, rest, k);
      }
    }
  }

  /** An entry too large for its frame is not read back: replay stops or reads less of it. */
  lemma OversizeIsLost(e: Entry, rest: seq<byte>, unset: Entry)
    requires !Fits(e)
    ensures var r := Replayed(Frame(e) + rest, unset);
            r == [] || r[0] != e
  {
    hide Little, FromLittle, Serialize, Deserialize, Frame;
    var bytes := Frame(e) + rest;
    var len := NextLength(bytes);
    if len.Some? && |bytes| >= 4 + len.value { PayloadLength(bytes[4..4 + len.value], unset); }
  }

  /** A log is read back in full if and only if every entry fits in 64 MiB. */
  lemma {:induction false} FullReplay(es: seq<Entry>, unset: Entry)
    ensures Replayed(Log(es), unset) == es <==> forall i | 0 <= i < |es| :: 20 + |es[i].payload| <= 64 * 1024 * 1024
    decreases |es|
  {
    hide Deserialize, Serialize, Frame, NextLength;
    if es != [] {
      var e, rest := es[0], Log(es[1..]);
      var bytes := Frame(e) + rest;
      if Fits(e) {
        assert bytes[..|bytes|] == bytes && rest[..|rest|] == rest;
        ReplayOne(e, rest, |bytes|, unset);
        FullReplay(es[1..], unset);
        assert es == [e] + es[1..];
      } else {
        OversizeIsLost(e, rest, unset);
      }
    }
  }

  // ---------- Appending after a failed write ----------

  predicate AllFit(es: seq<Entry>) { forall i | 0 <= i < |es| :: Fits(es[i]) }

  lemma ReplayFront(e: Entry, rest: seq<byte>, unset: Entry)
    requires Fits(e)
    ensures Replayed(Frame(e) + rest, unset) == [e] + Replayed(rest, unset)
  {
    hide Replayed, Frame, Fits;
    var bytes := Frame(e) + rest;
    assert bytes[..|bytes|] == bytes && rest[..|rest|] == rest;
    ReplayOne(e, rest, |bytes|, unset);
  }

  lemma LogFront(es: seq<Entry>, rest: seq<byte>)
    ensures Log(es) + rest == if es == [] then rest else Frame(es[0]) + (Log(es[1..]) + rest)
  {
    hide Frame;
  }

  /** Whatever follows a log, replay returns the entries of the log first. */
  lemma {:induction false} ReplayPrefix(pre: seq<Entry>, rest: seq<byte>, unset: Entry)
    requires AllFit(pre)
    ensures Replayed(Log(pre) + rest, unset) == pre + Replayed(rest, unset)
    decreases |pre|
  {
    hide Log, Replayed, Frame, Fits;
    LogFront(pre, rest);
    if pre != [] {
      ReplayFront(pre[0], Log(pre[1..]) + rest, unset);
      ReplayPrefix(pre[1..], rest, unset);
      assert pre == [pre[0]] + pre[1..];
    }
  }

  /** Even one byte of a torn frame fixes the low byte of the length that replay reads there. */
  lemma TornLength(x: Entry, k: nat, rest: seq<byte>)
    requires 0 < k < |Frame(x)|
    ensures var len := NextLength(Frame(x)[..k] + rest);
            len.Some? ==> len.value % 256 == |Serialize(x)| % 256
  {
    hide Serialize, Little, FromLittle;
    var bytes := Frame(x)[..k] + rest;
    if |bytes| >= 4 {
      assert bytes[..4][0] == Frame(x)[0];
      FirstByte(|Serialize(x)| % 0x1_0000_0000);
      LowestByte(bytes[..4]);
      CutTwice(|Serialize(x)|);
    }
  }

  lemma FirstByte(v: nat)
    ensures Little(v, 4)[0] == v % 256
  {
  }

  lemma LowestByte(b: seq<byte>)
    requires b != []
    ensures FromLittle(b) % 256 == b[0]
  {
    hide FromLittle;
    LowestUnfolds(b);
    var rest := FromLittle(b[1..]);
    assert (b[0] + 256 * rest) % 256 == b[0];
  }

  lemma LowestUnfolds(b: seq<byte>)
    requires b != []
    ensures FromLittle(b) == b[0] + 256 * FromLittle(b[1..])
  {
  }

  lemma CutTwice(n: nat)
    ensures n % 0x1_0000_0000 % 256 == n % 256
  {
    var q, r := n / 0x1_0000_0000, n % 0x1_0000_0000;
    assert n == (q * 0x100_0000) * 256 + r;
  }

  /** An entry appended behind a torn frame is not read back when the two lengths differ in the low byte. */
  lemma TornTailMisreads(x: Entry, k: nat, es: seq<Entry>, unset: Entry)
    requires 0 < k < |Frame(x)| && es != [] && es[0].payload != [] && |es[0].payload| % 256 != |x.payload| % 256
    ensures var r := Replayed(Frame(x)[..k] + Log(es), unset);
            r == [] || r[0] != es[0]
  {
    hide Frame, Log, NextLength, Serialize, Deserialize;
    var bytes := Frame(x)[..k] + Log(es);
    TornLength(x, k, Log(es));
    var len := NextLength(bytes);
    if len.Some? && |bytes| >= 4 + len.value {
      PayloadLength(bytes[4..4 + len.value], unset);
      if len.value >= HEADER { LowByte(len.value, |x.payload|); }
    }
  }

  lemma PayloadLength(data: seq<byte>, unset: Entry)
    ensures |Deserialize(data, unset).payload| == if |data| < HEADER then 0 else |data| - HEADER
  {
    hide FromLittle, Signed;
  }

  lemma LowByte(len: nat, n: nat)
    requires len % 256 == (HEADER + n) % 256 && len >= HEADER
    ensures (len - HEADER) % 256 == n % 256
  {
    var q, r := len / 256, (HEADER + n) / 256;
    assert len - HEADER == n + (q - r) * 256;
  }

  /**
   * Nothing repairs a torn tail before appending goes on.  Of a file that ends with the first `k`
   * bytes of a frame, replay returns whatever is appended later if and only if `k` is zero.
   */
  lemma TornTailHidesLater(pre: seq<Entry>, x: Entry, k: nat, unset: Entry)
    requires AllFit(pre) && k < |Frame(x)|
    ensures (forall es | AllFit(es) :: Replayed(Log(pre) + Frame(x)[..k] + Log(es), unset) == pre + es) <==> k == 0
  {
    hide Frame, Log, Replayed, AllFit;
    if k == 0 {
      forall es | AllFit(es) ensures Replayed(Log(pre) + Frame(x)[..k] + Log(es), unset) == pre + es {
        assert Log(pre) + Frame(x)[..k] + Log(es) == Log(pre) + Log(es);
        ReplayPrefix(pre, Log(es), unset);
        FitsInFull(es, unset);
      }
    } else {
      var later := Entry(0, 0, 0, if |x.payload| % 256 == 1 then [0, 0] else [0]);
      SmallFits(later);
      var torn := Frame(x)[..k] + Log([later]);
      assert Log(pre) + Frame(x)[..k] + Log([later]) == Log(pre) + torn;
      ReplayPrefix(pre, torn, unset);
      TornTailMisreads(x, k, [later], unset);
      var r := Replayed(torn, unset);
      assert (pre + r)[|pre|..] == r && (pre + [later])[|pre|..] == [later];
    }
  }

  lemma FitsInFull(es: seq<Entry>, unset: Entry)
    requires AllFit(es)
    ensures Replayed(Log(es), unset) == es
  {
    FullReplay(es, unset);
  }

  lemma SmallFits(e: Entry)
    requires |e.payload| <= 2
    ensures AllFit([e])
  {
  }

  // ---------- One session ----------

  /** An open output stream: once a write has failed it takes no more. */
  datatype Stream = Stream(bytes: seq<byte>, failed: bool)

  /** Of the frame, `reached` bytes get to the file; the append succeeds if that is all of them. */
  function AppendTo(s: Stream, e: Entry, reached: nat): Stream
  {
    if s.failed then s
    else Stream(s.bytes + Frame(e)[..Min(reached, |Frame(e)|)], reached < |Frame(e)|)
  }

  predicate Accepts(s: Stream, e: Entry, reached: nat)
  {
    !s.failed && reached >= |Frame(e)|
  }

  datatype Try = Try(entry: Entry, reached: nat)

  function Sent(s: Stream, tries: seq<Try>): Stream
    decreases |tries|
  {
    if tries == [] then s else Sent(AppendTo(s, tries[0].entry, tries[0].reached), tries[1..])
  }

  function Accepted(s: Stream, tries: seq<Try>): seq<Entry>
    decreases |tries|
  {
    if tries == [] then [] else
    var t := tries[0];
    (if Accepts(s, t.entry, t.reached) then [t.entry] else []) + Accepted(AppendTo(s, t.entry, t.reached), tries[1..])
  }

  lemma {:induction false} FailedForGood(s: Stream, tries: seq<Try>)
    requires s.failed
    ensures Sent(s, tries) == s && Accepted(s, tries) == []
    decreases |tries|
  {
    if tries != [] { FailedForGood(s, tries[1..]); }
  }

  lemma {:induction false} LogSnoc(es: seq<Entry>, e: Entry)
    ensures Log(es + [e]) == Log(es) + Frame(e)
    decreases |es|
  {
    hide Frame;
    if es == [] {
      assert es + [e] == [e] && Log([]) == [] && [e][1..] == [];
    } else {
      assert (es + [e])[1..] == es[1..] + [e] && (es + [e])[0] == es[0];
      LogSnoc(es[1..], e);
    }
  }

  lemma TornAlone(e: Entry, k: nat, unset: Entry)
    requires Fits(e) && k < |Frame(e)|
    ensures Replayed(Frame(e)[..k], unset) == []
  {
    hide Frame, Replayed, Fits;
    assert Log([e]) == Frame(e);
    TornTailReplay([e], k, unset);
  }

  /** A stream opened on a whole log loses nothing: replay returns exactly the entries whose append succeeded. */
  lemma {:induction false} SessionIsReplayed(pre: seq<Entry>, tries: seq<Try>, unset: Entry)
    requires AllFit(pre) && forall i | 0 <= i < |tries| :: Fits(tries[i].entry)
    ensures var s := Stream(Log(pre), false);
            Replayed(Sent(s, tries).bytes, unset) == pre + Accepted(s, tries)
    decreases |tries|
  {
    hide Frame, Log, Replayed, Fits;
    var s := Stream(Log(pre), false);
    if tries == [] {
      FitsInFull(pre, unset);
    } else {
      var e, reached := tries[0].entry, tries[0].reached;
      var next := AppendTo(s, e, reached);
      if reached >= |Frame(e)| {
        LogSnoc(pre, e);
        assert Frame(e)[..|Frame(e)|] == Frame(e);
        SessionIsReplayed(pre + [e], tries[1..], unset);
      } else {
        FailedForGood(next, tries[1..]);
        ReplayPrefix(pre, Frame(e)[..reached], unset);
        TornAlone(e, reached, unset);
      }
    }
  }

  // ---------- The writer ----------

  function Largest(es: seq<Entry>): (m: uint64)
    ensures forall i | 0 <= i < |es| :: es[i].sequence <= m
    ensures m == 0 || exists i | 0 <= i < |es| :: es[i].sequence == m
  {
    if es == [] then 0 else
    var m := Largest(es[..|es| - 1]);
    if es[|es| - 1].sequence > m then es[|es| - 1].sequence else m
  }

  function NextSequence(es: seq<Entry>): uint64
  {
    (Largest(es) + 1) % 0x1_0000_0000_0000_0000
  }

  /**
   * The next number lies above every replayed one unless the largest 64-bit number has been used.
   * It is the least such number: one, or one more than some entry has.
   */
  lemma NextIsAbove(es: seq<Entry>)
    ensures (forall i | 0 <= i < |es| :: es[i].sequence < NextSequence(es)) <==> forall i | 0 <= i < |es| :: es[i].sequence < 0xFFFF_FFFF_FFFF_FFFF
    ensures (forall i | 0 <= i < |es| :: es[i].sequence < NextSequence(es)) ==>
              NextSequence(es) == 1 || exists i | 0 <= i < |es| :: es[i].sequence + 1 == NextSequence(es)
  {
    var m := Largest(es);
    if m == 0xFFFF_FFFF_FFFF_FFFF {
      var i :| 0 <= i < |es| && es[i].sequence == m;
    }
  }

  method LargestSequence(entries: seq<Entry>) returns (max: uint64)
    ensures max == Largest(entries)
  {
    max := 0;
    for i := 0 to |entries|
      invariant max == Largest(entries[..i])
    {
      assert entries[..i + 1][..i] == entries[..i];
      if entries[i].sequence > max { max := entries[i].sequence; }
    }
    assert entries[..|entries|] == entries;
  }

  class JournalWriter {
    /** The bytes of the file, if it exists. */
    var file: Option<seq<byte>>
    var open: bool
    /** The fail bit of the output stream. */
    var failed: bool
    var nextSequence: uint64

    constructor ()
      ensures file == None && !open && !failed && nextSequence == 1
    {
      file, open, failed, nextSequence := None, false, false, 1;
    }

    /** Reads frame by frame, handing out each entry. */
    method Replay(unset: Entry) returns (entries: seq<Entry>)
      ensures entries == match file { case None => [] case Some(bytes) => Replayed(bytes, unset) }
    {
      entries := [];
      if file.None? { return; }
      var rest := file.value;
      while true
        invariant Replayed(file.value, unset) == entries + Replayed(rest, unset)
        decreases |rest|
      {
        var len := NextLength(rest);
        if len.None? || |rest| < 4 + len.value { return; }
        entries := entries + [Deserialize(rest[4..4 + len.value], unset)];
        rest := rest[4 + len.value..];
      }
    }

    /**
     * Continues after the largest number found; the file is created when it is missing.  Opening a
     * closed stream clears its fail bit, opening one that is open already sets it.
     */
    method Open(unset: Entry, ok: bool) returns (status: Status)
      modifies this
      ensures nextSequence == match old(file) { case None => old(nextSequence) case Some(bytes) => NextSequence(Replayed(bytes, unset)) }
      ensures open == (ok || old(open)) && status == if open then Ok else IOError
      ensures failed == (old(open) || !ok)
      ensures file == if !old(open) && ok && old(file).None? then Some([]) else old(file)
    {
      hide Replayed, Largest;
      if file.Some? {
        var entries := Replay(unset);
        var max := LargestSequence(entries);
        nextSequence := (max as int + 1) % 0x1_0000_0000_0000_0000;
      }
      failed := open || !ok;
      if open { return Ok; }
      if !ok { return IOError; }
      if file.None? { file := Some([]); }
      open := true;
      return Ok;
    }

    method Close() returns (status: Status)
      modifies this`open
      ensures !open && status == Ok
    {
      open := false;
      return Ok;
    }

    /** Appends one frame; a write that fails leaves a torn frame behind and ends the session. */
    method Append(e: Entry, reached: nat) returns (status: Status)
      requires open ==> file.Some?
      modifies this`file, this`failed
      ensures !open ==> status == IOError && file == old(file) && failed == old(failed)
      ensures open ==> file.Some? && Stream(file.value, failed) == AppendTo(Stream(old(file).value, old(failed)), e, reached)
      ensures open ==> status == if Accepts(Stream(old(file).value, old(failed)), e, reached) then Ok else IOError
    {
      if !open || failed { return IOError; }
      file := Some(file.value + Frame(e)[..Min(reached, |Frame(e)|)]);
      failed := reached < |Frame(e)|;
      return if failed then IOError else Ok;
    }
  }
}
