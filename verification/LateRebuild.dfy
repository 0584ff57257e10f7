/** A shard in which sweeps that visit as many slots as there were, with a rebuild between, leave an expired entry. */
module LateRebuild {
  import opened Bytes
  import opened Entry
  import opened Group
  import opened Index
  import Probe
  import ArenaLayout
  import Cursor
  import opened ArenaModel
  import opened TableModel
  import Shard
  import Sweeping

  const WIDTH: Width := 16
  const NOW: u32 := 5

  /** Every key goes to the second of two groups, or to the only one. */
  function HashOf(key: Key): u64 { 1 }

  /** Two entries, both expired by `NOW`. */
  function Early(): Parts { Parts([1], [], Some(0), None) }

  function Late(): Parts { Parts([2], [], Some(0), None) }

  /** Thirty-two empty slots of a table that has held eight entries. */
  ghost function Bare(): Shape
  {
    Shape(Blank(32), seq(32, _ => NONE), 0, 0, 0, 28, 8)
  }

  ghost function OneIn(a: u32): Shape
  {
    Index.Filled(Bare(), 16, TagOf(1), Rec(Early(), a))
  }

  /** One entry in the third quarter of the slots, one in the last. */
  ghost function BothIn(a: u32, b: u32): Shape
  {
    var one := OneIn(a);
    Shape(Inserted(one.ix, 24, TagOf(1), Rec(Late(), b)), one.slots[24 := b], 2, 0, 2, 26, 8)
  }

  lemma ThirtyTwo()
    ensures IsCapacity(32) && Groups(32, WIDTH) == 2 && Groups(16, WIDTH) == 1
  {
    assert Probe.Pow2(0) == 1 && Probe.Pow2(1) == 2 && Probe.Pow2(2) == 4 && Probe.Pow2(3) == 8;
    assert Probe.Pow2(4) == 16 && Probe.Pow2(5) == 32;
  }

  lemma BareIsConsistent()
    ensures Consistent(Bare(), WIDTH, HashOf)
  {
    hide Placed, Spells, IsCapacity, Count, Fulls, Are, Timeds;
    ThirtyTwo();
    var now := Blank(32);
    assert forall i: nat :: !FullAt(now.ctrl, i);
    assert forall i :: 0 <= i < 32 ==> !Fulls(now.ctrl)[i] by { BareCounts(); }
    BareCounts();
    NothingSpells(now);
  }

  lemma BareCounts()
    ensures |Fulls(Blank(32).ctrl)| == 32
    ensures forall i :: 0 <= i < 32 ==> !Fulls(Blank(32).ctrl)[i]
    ensures Count(Fulls(Blank(32).ctrl)) == 0 && Count(Are(Blank(32).ctrl, DELETED)) == 0
    ensures Count(Timeds(Blank(32).ctrl, Blank(32).ents)) == 0
  {
    hide Count;
    CountZero(Fulls(Blank(32).ctrl));
    CountZero(Are(Blank(32).ctrl, DELETED));
    CountZero(Timeds(Blank(32).ctrl, Blank(32).ents));
  }

  lemma BothIsConsistent(a: u32, b: u32)
    ensures Consistent(BothIn(a, b), WIDTH, HashOf)
  {
    hide Consistent, TagOf, Blank;
    BareIsConsistent();
    ThirtyTwo();
    Probe.NextGroup(1, 0, 2);
    BareIsBlank();
    FillKeeps(Bare(), WIDTH, HashOf, 16, Rec(Early(), a), 0);
    FillKeeps(OneIn(a), WIDTH, HashOf, 24, Rec(Late(), b), 0);
    assert Index.Filled(OneIn(a), 24, TagOf(1), Rec(Late(), b)) == BothIn(a, b);
  }

  lemma BareIsBlank()
    ensures |Blank(32).ctrl| == |Blank(32).ents| == 32 && Blank(32).model == map[]
    ensures forall i :: 0 <= i < 32 ==> Blank(32).ctrl[i] == EMPTY
    ensures !IsFull(EMPTY) && EMPTY != DELETED && IsFull(TagOf(1)) && TagOf(1) != EMPTY && TagOf(1) != DELETED
  {
    MarkersAreNotFull();
  }

  // ---------------------------------------------------------------------------------------------
  // What the sweeps come to
  // ---------------------------------------------------------------------------------------------

  /** Both entries where they were put, and nothing else. */
  ghost predicate HasBoth(ix: Ix, a: u32, b: u32)
  {
    && |ix.ctrl| == |ix.ents| == 32 && (forall i: nat :: FullAt(ix.ctrl, i) <==> i == 16 || i == 24)
    && ix.ents[16] == Rec(Early(), a) && ix.ents[24] == Rec(Late(), b)
    && ix.model == map[Early().key := Rec(Early(), a), Late().key := Rec(Late(), b)]
  }

  /** Only the later entry. */
  ghost predicate HasLate(ix: Ix, b: u32)
  {
    && |ix.ctrl| == |ix.ents| == 32 && (forall i: nat :: FullAt(ix.ctrl, i) <==> i == 24)
    && ix.ents[24] == Rec(Late(), b) && ix.model == map[Late().key := Rec(Late(), b)]
  }

  lemma BothHasBoth(a: u32, b: u32)
    ensures HasBoth(BothIn(a, b).ix, a, b)
  {
    hide TagOf, Blank;
    BareIsBlank();
    assert Early().key != Late().key;
  }

  /** A sweep of either of the first two quarters finds nothing. */
  lemma NothingEarly(was: Ix, now: Ix, from: nat, a: u32, b: u32)
    requires HasBoth(was, a, b) && (from == 0 || from == 8) && SweptBetween(was, now, from, 8, NOW)
    ensures HasBoth(now, a, b)
  {
    hide IsFull;
    assert Offset(16, from, 32) >= 8 && Offset(24, from, 32) >= 8;
    assert HoldsKey(now, 16, Early().key) && HoldsKey(now, 24, Late().key);
  }

  /** A sweep of the third quarter takes the entry there. */
  lemma OneGoes(was: Ix, now: Ix, a: u32, b: u32)
    requires HasBoth(was, a, b) && SweptBetween(was, now, 16, 8, NOW)
    ensures HasLate(now, b)
  {
    hide IsFull;
    assert Offset(16, 16, 32) == 0 && Offset(24, 16, 32) == 8;
    assert Early().key != Late().key;
    assert HoldsKey(now, 24, Late().key);
    forall i: nat
      ensures !HoldsKey(now, i, Early().key)
    {
    }
  }

  /** A rebuild puts the one entry left in the first slot. */
  lemma MovedToFront(was: Ix, now: Ix, b: u32)
    requires HasLate(was, b) && RebuiltAs(was, now, 16, WIDTH, HashOf)
    ensures |now.ctrl| == |now.ents| == 16 && FullAt(now.ctrl, 0) && now.ents[0] == Rec(Late(), b)
  {
    hide CarriedOver, IsFull, Blank;
    var steps: seq<Ix> :|
      BuiltUp(was, steps, 16, WIDTH, HashOf) && |steps| == |was.ctrl| + 1 && steps[|was.ctrl|] == now;
    StillBlank(was, steps, b, 24);
    assert CarriedOver(was, 24, steps[24], steps[25], WIDTH, HashOf);
    PutInFront(was, steps[25], b);
    StillInFront(was, steps, b, 32);
  }

  lemma {:induction false} StillBlank(was: Ix, steps: seq<Ix>, b: u32, n: nat)
    requires HasLate(was, b) && BuiltUp(was, steps, 16, WIDTH, HashOf) && |steps| == 33 && n <= 24
    ensures steps[n] == Blank(16)
  {
    hide IsFull, Blank;
    if n > 0 {
      StillBlank(was, steps, b, n - 1);
      assert CarriedOver(was, n - 1, steps[n - 1], steps[n], WIDTH, HashOf);
      assert !FullAt(was.ctrl, n - 1);
    }
  }

  lemma PutInFront(was: Ix, next: Ix, b: u32)
    requires HasLate(was, b) && CarriedOver(was, 24, Blank(16), next, WIDTH, HashOf)
    ensures |next.ctrl| == |next.ents| == 16 && FullAt(next.ctrl, 0) && next.ents[0] == Rec(Late(), b)
  {
    hide TagOf, FirstProbed;
    BareIsBlank();
    var blank := Blank(16);
    assert FullAt(was.ctrl, 24);
    var put: nat :|
      FirstEmpty(blank.ctrl, WIDTH, 1, put) && put < 16 && next == Inserted(blank, put, TagOf(1), was.ents[24]);
    assert SlotIsEmpty(blank.ctrl, 0) && GroupOf(0, WIDTH) == GroupOf(put, WIDTH);
  }

  lemma {:induction false} StillInFront(was: Ix, steps: seq<Ix>, b: u32, n: nat)
    requires HasLate(was, b) && BuiltUp(was, steps, 16, WIDTH, HashOf) && |steps| == 33 && 25 <= n <= 32
    requires |steps[25].ctrl| == |steps[25].ents| == 16 && FullAt(steps[25].ctrl, 0)
        && steps[25].ents[0] == Rec(Late(), b)
    ensures steps[n] == steps[25]
  {
    hide IsFull, Blank;
    if n > 25 {
      StillInFront(was, steps, b, n - 1);
      assert CarriedOver(was, n - 1, steps[n - 1], steps[n], WIDTH, HashOf);
      assert !FullAt(was.ctrl, n - 1);
    }
  }

  /** A sweep of the second half of what are now sixteen slots passes it by. */
  lemma PassedBy(was: Ix, now: Ix, b: u32)
    requires |was.ctrl| == |was.ents| == 16 && FullAt(was.ctrl, 0) && was.ents[0] == Rec(Late(), b)
    requires Late().key in was.model && was.model[Late().key] == was.ents[0] && SweptBetween(was, now, 24, 8, NOW)
    ensures Late().key in now.model && now.model[Late().key] == Rec(Late(), b)
  {
    hide IsFull;
    assert Offset(0, 24, 16) == 8;
    assert HoldsKey(now, 0, Late().key);
  }

  lemma StillTimed(t: Table)
    requires t.Readable() && FullAt(t.ctrl[..], 24) && 24 < |t.ents| && Expired(t.ents[24].parts, NOW)
    ensures t.timed > 0
  {
    hide Consistent, Stored, Arena.Readable;
    if t.timed == 0 {
      Sweeping.TimelessIsQuiet(t, NOW);
    }
  }

  lemma ShrunkToSixteen()
    ensures Shrunk(1) == 16
  {
    assert Probe.NextPow2(2, 2) == 2;
    assert Probe.NextPow2(1, 2) == 2;
  }

  // ---------------------------------------------------------------------------------------------
  // The table
  // ---------------------------------------------------------------------------------------------

  lemma ServedAddsOne(f: Cursor.Cutter, c: nat, granted: bool)
    ensures |Cursor.Served(f, c, granted).0.segs| <= |f.segs| + 1
  {
    hide ArenaLayout.NextSegmentSize;
  }

  lemma BothAreSmall()
    ensures Entry.Fits(Early()) && Entry.Fits(Late())
    ensures ArenaLayout.ClassOf(SizeOfParts(Early())).Some? && ArenaLayout.ClassOf(SizeOfParts(Late())).Some?
  {
  }

  /** A block for `p`, with `p` written in it. */
  method Write(t: Table, p: Parts) returns (at: u32)
    requires t.arena.Valid() && t.arena.Readable() && Entry.Fits(p) && ArenaLayout.ClassOf(SizeOfParts(p)).Some?
    requires |t.arena.segments| < ArenaLayout.MAX_SEGMENTS
    modifies t.arena
    ensures t.arena.Valid() && t.arena.Readable() && at !in old(t.arena.blocks)
    ensures t.arena.blocks == old(t.arena.blocks)[at := Encode(p)]
    ensures |t.arena.segments| <= |old(t.arena.segments)| + 1
  {
    hide Arena.Valid, Arena.Readable, Encode, SizeOfParts, Cursor.Served;
    ServedAddsOne(t.arena.Cutter(), ArenaLayout.ClassOf(SizeOfParts(p)).value, true);
    var r := t.arena.Alloc(SizeOfParts(p), true);
    at := r.value;
    assert t.arena.Stock().segments <= |old(t.arena.segments)| + 1;
    t.WriteEntry(at, p);
  }

  /** The arrays of such a table, with references `x` and `y` in it. */
  method Arrays(x: u32, y: u32) returns (c: array<bv8>, s: array<u32>)
    ensures fresh(c) && fresh(s) && (c as object) != (s as object) && c.Length == s.Length == 32
    ensures c[..] == BothIn(x, y).ix.ctrl && s[..] == BothIn(x, y).slots
  {
    hide TagOf, BothIn;
    SlotsOfBoth(x, y);
    var tag := TagOf(1);
    c, s := new bv8[32](i => if i == 16 || i == 24 then tag else EMPTY),
            new u32[32](i => if i == 16 then x else if i == 24 then y else NONE);
  }

  /** A table in that state. */
  method Make() returns (t: Table, ghost a: u32, ghost b: u32)
    ensures fresh(t) && fresh(t.ctrl) && fresh(t.slots) && fresh(t.arena)
    ensures t.Valid() && t.width == WIDTH && t.hash == HashOf && t.ctrl.Length == 32 && HasBoth(t.Shape().ix, a, b)
  {
    hide Consistent, Arena.Valid, Arena.Readable, Encode, HasBoth, SizeOfParts, Stored;
    t := new Table(WIDTH, HashOf, false);
    BothAreSmall();
    var x := Write(t, Early());
    var y := Write(t, Late());
    a, b := x, y;
    var c, s := Arrays(x, y);
    BothIsConsistent(a, b);
    BothHasBoth(a, b);
    ModelOfBoth(a, b);
    BothAreStored(BothIn(a, b).ix.model, t.arena.blocks, a, b);
    Fill(t, c, s, a, b);
  }

  lemma ModelOfBoth(a: u32, b: u32)
    ensures BothIn(a, b).ix.model == map[Early().key := Rec(Early(), a), Late().key := Rec(Late(), b)]
  {
  }

  /** Give a table those arrays. */
  method Fill(t: Table, c: array<bv8>, s: array<u32>, ghost a: u32, ghost b: u32)
    requires c[..] == BothIn(a, b).ix.ctrl && s[..] == BothIn(a, b).slots
    modifies t
    ensures t.ctrl == c && t.slots == s && t.Shape() == BothIn(a, b) && t.model == BothIn(a, b).ix.model
  {
    hide TagOf, Index.Filled, Inserted, Bare;
    t.ctrl, t.slots := c, s;
    t.len, t.tombstones, t.timed, t.growthLeft := 2, 0, 2, 26;
    t.ents, t.model, t.peak := BothIn(a, b).ix.ents, BothIn(a, b).ix.model, 8;
  }

  lemma SlotsOfBoth(a: u32, b: u32)
    ensures |BothIn(a, b).slots| == |BothIn(a, b).ix.ctrl| == 32
    ensures forall i :: 0 <= i < 32 ==> BothIn(a, b).slots[i] == if i == 16 then a else if i == 24 then b else NONE
    ensures forall i :: 0 <= i < 32 ==> BothIn(a, b).ix.ctrl[i] == if i == 16 || i == 24 then TagOf(1) else EMPTY
  {
    hide TagOf, Blank;
    BareIsBlank();
  }

  lemma BothAreStored(model: map<Key, Rec>, blocks: ArenaLayout.Blocks, a: u32, b: u32)
    requires model == map[Early().key := Rec(Early(), a), Late().key := Rec(Late(), b)]
    requires a != b && blocks == map[a := Encode(Early()), b := Encode(Late())]
    ensures Stored(model, blocks)
  {
    hide Encode;
    BothAreSmall();
    assert Early().key != Late().key;
    assert Early().key in model && model[Early().key].at == a;
    assert Late().key in model && model[Late().key].at == b;
  }

  /** Whatever states four sweeps of eight slots lead through from there, each from where the last left off and with
      the index rebuilt after the third: thirty-two slots have been visited, as many as there were, and an entry that
      had expired all along is left. */
  lemma RebuildLosesCoverage(a: u32, b: u32, s: seq<Ix>)
    requires |s| == 6 && HasBoth(s[0], a, b)
    requires SweptBetween(s[0], s[1], 0, 8, NOW) && SweptBetween(s[1], s[2], 8, 8, NOW)
        && SweptBetween(s[2], s[3], 16, 8, NOW)
    requires s[4].model == s[3].model && |s[4].ctrl| == |s[4].ents| && Spells(s[4])
    requires RebuiltAs(s[3], s[4], Shrunk(|s[3].model|), WIDTH, HashOf) && SweptBetween(s[4], s[5], 24, 8, NOW)
    ensures 4 * 8 == |s[0].ctrl| && Late().key in s[5].model && Expired(s[5].model[Late().key].parts, NOW)
  {
    hide HasBoth, SweptBetween, RebuiltAs, Spells;
    SlotsOfHasBoth(s[0], a, b);
    NothingEarly(s[0], s[1], 0, a, b);
    NothingEarly(s[1], s[2], 8, a, b);
    OneGoes(s[2], s[3], a, b);
    ShrunkToSixteen();
    MovedToFront(s[3], s[4], b);
    PassedBy(s[4], s[5], b);
  }

  lemma SlotsOfHasBoth(ix: Ix, a: u32, b: u32)
    requires HasBoth(ix, a, b)
    ensures |ix.ctrl| == 32
  {
  }

  /** One sweep of the table, with the state it leads to. */
  method Quarter(t: Table, from: nat, ghost a: u32, ghost b: u32) returns (next: nat, ghost now: Ix)
    requires t.Valid() && t.ctrl.Length == 32 && HasBoth(t.Shape().ix, a, b) && (from == 0 || from == 8)
    modifies t, t.ctrl, t.slots, t.arena
    ensures t.Valid() && t.ctrl == old(t.ctrl) && t.slots == old(t.slots)
    ensures HasBoth(t.Shape().ix, a, b) && next == from + 8
    ensures now == t.Shape().ix && SweptBetween(old(t.Shape().ix), now, from, 8, NOW)
  {
    hide Table.Readable, Arena.Valid, Seen, SweptBetween, HasBoth, Sweeping.OnlyExpiredWent, Shrunk;
    ghost var was := t.Shape().ix;
    LenIsSize(t);
    BothTimed(t, a, b);
    var removed, rebuilt;
    next, removed, rebuilt, now := Sweeping.SweepOnce(t, from, 8, NOW);
    NothingEarly(was, now, from, a, b);
    TwoAreLeft(was, a, b);
    TwoAreLeft(now, a, b);
    LenIsSize(t);
  }

  lemma TwoAreLeft(ix: Ix, a: u32, b: u32)
    requires HasBoth(ix, a, b)
    ensures |ix.model| == 2
  {
    assert Early().key != Late().key;
    assert ix.model.Keys == {Early().key, Late().key};
  }

  lemma BothTimed(t: Table, a: u32, b: u32)
    requires t.Readable() && HasBoth(t.Shape().ix, a, b)
    ensures t.timed > 0
  {
    hide Table.Readable, IsFull;
    assert FullAt(t.Shape().ix.ctrl, 24);
    StillTimed(t);
  }

  /** The third sweep, which takes one entry and rebuilds the index. */
  method ThirdQuarter(t: Table, ghost a: u32, ghost b: u32) returns (next: nat, ghost three: Ix)
    requires t.Valid() && t.width == WIDTH && t.hash == HashOf && t.ctrl.Length == 32 && HasBoth(t.Shape().ix, a, b)
    modifies t, t.ctrl, t.slots, t.arena
    ensures t.Valid() && (t.ctrl == old(t.ctrl) || fresh(t.ctrl)) && (t.slots == old(t.slots) || fresh(t.slots))
    ensures SweptBetween(old(t.Shape().ix), three, 16, 8, NOW) && next == 24 && t.model == three.model
    ensures RebuiltAs(three, t.Shape().ix, Shrunk(|three.model|), WIDTH, HashOf)
  {
    hide Table.Readable, Arena.Valid, Seen, SweptBetween, HasBoth, HasLate, RebuiltAs, Sweeping.OnlyExpiredWent, Shrunk;
    ghost var two := t.Shape().ix;
    LenIsSize(t);
    BothTimed(t, a, b);
    TwoAreLeft(two, a, b);
    var removed, rebuilt;
    next, removed, rebuilt, three := Sweeping.SweepOnce(t, 16, 8, NOW);
    OneGoes(two, three, a, b);
    OneIsLeft(three, b);
    LenIsSize(t);
    ShrunkToSixteen();
  }

  /** The same, run: a table with thirty-two slots, four sweeps of eight, and what is left. */
  method Demonstrate() returns (t: Table)
    ensures t.Valid() && Late().key in t.Map() && Expired(t.Map()[Late().key], NOW)
  {
    hide Table.Readable, Arena.Valid, SweptBetween, HasBoth, HasLate, RebuiltAs, Spells, Sweeping.OnlyExpiredWent,
      Shrunk;
    ghost var a, b;
    t, a, b := Make();
    ghost var zero := t.Shape().ix;
    var next;
    ghost var one, two, three, five;
    next, one := Quarter(t, 0, a, b);
    next, two := Quarter(t, next, a, b);
    next, three := ThirdQuarter(t, a, b);
    WhatATableSpells(t);
    ghost var four := t.Shape().ix;
    var removed, rebuilt;
    next, removed, rebuilt, five := Sweeping.SweepOnce(t, next, 8, NOW);
    RebuildLosesCoverage(a, b, [zero, one, two, three, four, five]);
  }

  lemma OneIsLeft(ix: Ix, b: u32)
    requires HasLate(ix, b)
    ensures |ix.model| == 1
  {
    assert ix.model.Keys == {Late().key};
  }
}
