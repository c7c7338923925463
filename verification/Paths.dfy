/** Splitting a path string into its components. */
module Paths {
  import opened Common

  /** What reading the string slash by slash yields: the non-empty pieces, in order. */
  function Components(p: Text): (r: seq<Text>)
    decreases |p|
  {
    if p == [] then [] else
    var i := FirstSlash(p);
    var rest := if i < |p| then Components(p[i + 1..]) else [];
    if i == 0 then rest else [p[..i]] + rest
  }

  function FirstSlash(p: Text): (i: nat)
    ensures i <= |p| && SLASH !in p[..i] && (i < |p| ==> p[i] == SLASH)
  {
    if p == [] || p[0] == SLASH then 0 else
    var j := FirstSlash(p[1..]);
    assert p[..j + 1] == [p[0]] + p[1..][..j];
    j + 1
  }

  predicate IsName(n: Text) { n != [] && SLASH !in n }

  lemma {:induction false} ComponentsAreNames(p: Text)
    ensures forall k | 0 <= k < |Components(p)| :: IsName(Components(p)[k])
    decreases |p|
  {
    if p != [] {
      var i := FirstSlash(p);
      if i < |p| { ComponentsAreNames(p[i + 1..]); }
    }
  }

  /** The usual spelling of a path: every component preceded by one slash. */
  function Spell(parts: seq<Text>): Text
  {
    if parts == [] then [] else [SLASH] + parts[0] + Spell(parts[1..])
  }

  lemma {:induction false} FirstSlashAfter(n: Text, rest: Text)
    requires SLASH !in n && (rest == [] || rest[0] == SLASH)
    ensures FirstSlash(n + rest) == |n|
  {
    if n == [] {
      assert n + rest == rest;
    } else {
      assert (n + rest)[1..] == n[1..] + rest;
      FirstSlashAfter(n[1..], rest);
    }
  }

  lemma SkipSlash(t: Text)
    ensures Components([SLASH] + t) == Components(t)
  {
    assert FirstSlash([SLASH] + t) == 0;
    assert ([SLASH] + t)[1..] == t;
  }

  lemma TakeName(n: Text, rest: Text)
    requires IsName(n) && (rest == [] || rest[0] == SLASH)
    ensures Components(n + rest) == [n] + Components(rest)
  {
    FirstSlashAfter(n, rest);
    assert (n + rest)[..|n|] == n;
    if rest != [] {
      assert (n + rest)[|n| + 1..] == rest[1..];
      assert rest == [SLASH] + rest[1..];
      SkipSlash(rest[1..]);
    }
  }

  /** Splitting undoes spelling: every sequence of legal names is the components of its spelling. */
  lemma {:induction false} SplitUndoesSpell(parts: seq<Text>)
    requires forall k | 0 <= k < |parts| :: IsName(parts[k])
    ensures Components(Spell(parts)) == parts
    decreases |parts|
  {
    if parts != [] {
      var n, rest := parts[0], Spell(parts[1..]);
      assert Spell(parts) == [SLASH] + (n + rest);
      SkipSlash(n + rest);
      assert rest == [] || rest[0] == SLASH;
      TakeName(n, rest);
      SplitUndoesSpell(parts[1..]);
    }
  }

  predicate AreNames(parts: seq<Text>) { forall k | 0 <= k < |parts| :: IsName(parts[k]) }

  lemma {:induction false} SpellConcat(a: seq<Text>, b: seq<Text>)
    ensures Spell(a + b) == Spell(a) + Spell(b)
    decreases |a|
  {
    if a == [] {
      assert a + b == b && Spell(a) + Spell(b) == Spell(b);
    } else {
      assert (a + b)[1..] == a[1..] + b && (a + b)[0] == a[0];
      SpellConcat(a[1..], b);
      assert [SLASH] + a[0] + (Spell(a[1..]) + Spell(b)) == [SLASH] + a[0] + Spell(a[1..]) + Spell(b);
    }
  }

  /** A spelled path starts with a slash and does not end with one. */
  lemma {:induction false} SpellEnds(parts: seq<Text>)
    requires AreNames(parts) && parts != []
    ensures var p := Spell(parts);
            |p| >= 2 && p[0] == SLASH && p[|p| - 1] != SLASH
    decreases |parts|
  {
    var n, rest := parts[0], Spell(parts[1..]);
    assert Spell(parts) == [SLASH] + (n + rest);
    if parts[1..] == [] {
      assert n[|n| - 1] in n;
    } else {
      SpellEnds(parts[1..]);
    }
  }

  lemma SpellFront(parts: seq<Text>, rest: Text)
    requires rest == [] || rest[0] == SLASH
    ensures var all := Spell(parts) + rest;
            && (all == [] || all[0] == SLASH)
            && all == if parts == [] then rest else [SLASH] + (parts[0] + (Spell(parts[1..]) + rest))
  {
  }

  /** Reading a spelled path that goes on with a slash yields its names first. */
  lemma {:induction false} SplitAfterSpelled(parts: seq<Text>, rest: Text)
    requires AreNames(parts) && (rest == [] || rest[0] == SLASH)
    ensures Components(Spell(parts) + rest) == parts + Components(rest)
    decreases |parts|
  {
    hide Components, Spell;
    SpellFront(parts, rest);
    if parts != [] {
      var n, more := parts[0], Spell(parts[1..]) + rest;
      SpellFront(parts[1..], rest);
      SkipSlash(n + more);
      TakeName(n, more);
      SplitAfterSpelled(parts[1..], rest);
      assert parts == [n] + parts[1..];
    }
  }

  /** What is still to be read at a position. */
  ghost function Remaining(path: Text, pos: nat): seq<Text>
    requires pos <= |path|
  {
    Components(path[pos..])
  }

  lemma ReadingStarts(path: Text)
    ensures Remaining(path, 0) == Components(path) && Remaining(path, |path|) == []
  {
    assert path[0..] == path && path[|path|..] == [];
  }

  /** One `std::getline`: the piece up to the next slash, and where reading continues. */
  lemma ReadPiece(path: Text, pos: nat, end: nat)
    requires pos <= end <= |path| && SLASH !in path[pos..end] && (end < |path| ==> path[end] == SLASH)
    ensures Remaining(path, pos) ==
            (if end == pos then [] else [path[pos..end]]) + Remaining(path, if end < |path| then end + 1 else end)
  {
    var piece, tail := path[pos..end], path[end..];
    assert path[pos..] == piece + tail;
    assert piece == [] ==> piece + tail == tail;
    if end < |path| {
      assert tail == [SLASH] + path[end + 1..];
      SkipSlash(path[end + 1..]);
    }
    if end != pos { TakeName(piece, tail); }
  }

  lemma KeepPiece(parts: seq<Text>, piece: seq<Text>, rest: seq<Text>)
    ensures parts + (piece + rest) == (parts + piece) + rest
  {
  }

  /** Where the piece that starts at `pos` ends. */
  method GetLine(path: Text, pos: nat) returns (end: nat)
    requires pos <= |path|
    ensures pos <= end <= |path| && SLASH !in path[pos..end] && (end < |path| ==> path[end] == SLASH)
  {
    end := pos;
    while end < |path| && path[end] != SLASH
      invariant pos <= end <= |path| && SLASH !in path[pos..end]
    {
      end := end + 1;
    }
  }

  /** Reads the string piece by piece as `std::getline` does, keeping the non-empty pieces. */
  method SplitPath(path: Text) returns (parts: seq<Text>)
    ensures parts == Components(path)
  {
    hide Remaining, Components;
    ReadingStarts(path);
    parts := [];
    var pos := 0;
    while pos < |path|
      invariant 0 <= pos <= |path|
      invariant Components(path) == parts + Remaining(path, pos)
    {
      var end := GetLine(path, pos);
      ReadPiece(path, pos, end);
      var next := if end < |path| then end + 1 else end;
      var piece := if end == pos then [] else [path[pos..end]];
      KeepPiece(parts, piece, Remaining(path, next));
      parts := parts + piece;
      pos := next;
    }
  }
}
