/** One shard's table: control bytes, slots, and the arena the entries live in. */
module TableModel {
  import opened Bytes
  import opened Entry
  import opened Group
  import opened Probe
  import opened Index
  import ArenaLayout
  import opened ArenaModel

  const NONE := ArenaLayout.NONE

  datatype Wrote = WroteNew | WroteOver

  // ---------------------------------------------------------------------------------------------
  // What the index and the arena owe each other
  // ---------------------------------------------------------------------------------------------

  ghost predicate Behind(rec: Rec, blocks: ArenaLayout.Blocks)
  {
    rec.at in blocks && blocks[rec.at] == Encode(rec.parts) && Entry.Fits(rec.parts)
  }

  ghost predicate Owed(model: map<Key, Rec>, at: u32)
  {
    at == NONE || exists k :: k in model && model[k].at == at
  }

  /** Every entry's bytes are behind its reference, and no block is held for nothing. */
  ghost predicate Stored(model: map<Key, Rec>, blocks: ArenaLayout.Blocks)
  {
    && (forall k :: k in model ==> model[k].parts.key == k && Behind(model[k], blocks))
    && (forall r :: r in blocks ==> Owed(model, r))
  }

  /** Two keys never share a reference: the bytes behind it name one key. */
  lemma RefsDiffer(model: map<Key, Rec>, blocks: ArenaLayout.Blocks, k: Key, l: Key)
    requires Stored(model, blocks) && k in model && l in model && k != l
    ensures model[k].at != model[l].at
  {
    EncodeRoundTrip(model[k].parts);
    EncodeRoundTrip(model[l].parts);
  }

  lemma StoreNew(model: map<Key, Rec>, blocks: ArenaLayout.Blocks, rec: Rec)
    requires Stored(model, blocks) && rec.parts.key !in model && rec.at !in blocks && Entry.Fits(rec.parts)
    ensures Stored(model[rec.parts.key := rec], blocks[rec.at := Encode(rec.parts)])
  {
    hide Encode, Entry.Fits;
    var m := model[rec.parts.key := rec];
    forall r | r in blocks
      ensures Owed(m, r)
    {
      if r != NONE {
        var k :| k in model && model[k].at == r;
        assert k in m && m[k].at == r;
      }
    }
    assert rec.parts.key in m && m[rec.parts.key].at == rec.at;
  }

  /** Rewriting an entry inside the block it has. */
  lemma StoreOver(model: map<Key, Rec>, blocks: ArenaLayout.Blocks, parts: Parts)
    requires Stored(model, blocks) && parts.key in model && Entry.Fits(parts)
    ensures var rec := Rec(parts, model[parts.key].at);
            Stored(model[parts.key := rec], blocks[rec.at := Encode(parts)])
  {
    var rec := Rec(parts, model[parts.key].at);
    var m := model[parts.key := rec];
    forall k | k in m
      ensures m[k].parts.key == k && Behind(m[k], blocks[rec.at := Encode(parts)])
    {
      if k != parts.key {
        RefsDiffer(model, blocks, k, parts.key);
      }
    }
    forall r | r in blocks
      ensures Owed(m, r)
    {
      if r != NONE {
        var k :| k in model && model[k].at == r;
        assert k in m && m[k].at == r;
      }
    }
  }

  /** What the entries of a map come to, each at its rounded or exact size. */
  ghost function Owing(model: map<Key, Rec>): (n: nat)
    decreases |model|
  {
    if model == map[] then 0
    else
      var k :| k in model;
      ArenaLayout.Charge(|Encode(model[k].parts)|) + Owing(model - {k})
  }

  /** What giving a reference back leaves: everything but the reserved one is really given back. */
  ghost function Without(blocks: ArenaLayout.Blocks, at: u32): ArenaLayout.Blocks
  {
    if at == NONE then blocks else blocks - {at}
  }

  lemma StoreDrop(model: map<Key, Rec>, blocks: ArenaLayout.Blocks, key: Key)
    requires Stored(model, blocks) && key in model
    ensures Stored(model - {key}, Without(blocks, model[key].at))
  {
    var at := model[key].at;
    var m, b := model - {key}, Without(blocks, at);
    forall k | k in m
      ensures m[k].parts.key == k && Behind(m[k], b)
    {
      RefsDiffer(model, blocks, k, key);
    }
    forall r | r in b
      ensures Owed(m, r)
    {
      if r != NONE {
        var k :| k in model && model[k].at == r;
        assert k in m && m[k].at == r;
      }
    }
  }

  /** The arena is charged for exactly the entries the table holds: no block leaks and none is counted twice. */
  lemma {:induction false} ChargedForEntries(model: map<Key, Rec>, blocks: ArenaLayout.Blocks)
    requires Stored(model, blocks) && NONE !in blocks
    ensures ArenaLayout.Charges(blocks) == Owing(model)
    decreases |model|
  {
    if model == map[] {
      NothingOwed(blocks);
    } else {
      var k :| k in model && Owing(model) == ArenaLayout.Charge(|Encode(model[k].parts)|) + Owing(model - {k});
      hide Encode, ArenaLayout.Charge;
      StoredBehind(model, blocks, k);
      StoreDrop(model, blocks, k);
      ChargedForEntries(model - {k}, blocks - {model[k].at});
      ArenaLayout.ChargesRemove(blocks, model[k].at);
    }
  }

  /** Writing an entry to a fresh block and giving its old one back. */
  lemma StoreMove(model: map<Key, Rec>, blocks: ArenaLayout.Blocks, rec: Rec)
    requires Stored(model, blocks) && rec.parts.key in model && rec.at !in blocks && Entry.Fits(rec.parts)
    ensures Stored(model[rec.parts.key := rec], Without(blocks[rec.at := Encode(rec.parts)], model[rec.parts.key].at))
  {
    var key := rec.parts.key;
    var was := model[key].at;
    hide Encode, Entry.Fits;
    StoreDrop(model, blocks, key);
    StoreNew(model - {key}, Without(blocks, was), rec);
    assert (model - {key})[key := rec] == model[key := rec];
    assert Without(blocks, was)[rec.at := Encode(rec.parts)] == Without(blocks[rec.at := Encode(rec.parts)], was);
  }

  // ---------------------------------------------------------------------------------------------
  // The table
  // ---------------------------------------------------------------------------------------------

  class Table {
    const width: Width
    /** The hash of a key under this table's seed. */
    const hash: Key -> u64
    const arena: Arena

    var ctrl: array<bv8>
    var slots: array<u32>
    var len: nat
    var tombstones: nat
    var timed: nat
    var growthLeft: nat

    /** What each full slot holds. */
    ghost var ents: seq<Rec>
    /** The map this table is. */
    ghost var model: map<Key, Rec>
    /** The most entries it has ever held. */
    ghost var peak: nat

    ghost function Shape(): Shape
      reads this, ctrl, slots
    {
      Index.Shape(Ix(ctrl[..], ents, model), slots[..], len, tombstones, timed, growthLeft, peak)
    }

    /** The index is in order, and every entry can be read. */
    ghost predicate Readable()
      reads this, ctrl, slots, arena
    {
      && (ctrl as object) != (slots as object)
      && Consistent(Shape(), width, hash)
      && Stored(model, arena.blocks)
      && arena.Readable()
    }

    /** Everything a table keeps, up to the first refused segment. */
    ghost predicate Valid()
      reads this, ctrl, slots, arena
    {
      Readable() && arena.Valid()
    }

    lemma Sizes()
      requires Readable()
      ensures ctrl.Length == slots.Length == |ents|
      ensures ctrl.Length > 0 ==> Groups(ctrl.Length, width) > 0
      ensures ctrl.Length == Base(Groups(ctrl.Length, width), width)
    {
      hide Spells, Placed, Counted, Stored;
      if ctrl.Length > 0 {
        GroupsOfCapacity(ctrl.Length, width);
      }
    }

    /** An empty table that owns no slots and no arena memory. */
    constructor (width: Width, hash: Key -> u64, lazy: bool)
      ensures Valid() && fresh(arena) && fresh(ctrl) && fresh(slots)
      ensures this.width == width && this.hash == hash
      ensures model == map[] && ctrl.Length == 0 && len == 0 && peak == 0
      ensures arena.blocks == map[] && arena.live == 0 && arena.segments == []
    {
      hide Consistent, Arena.Valid, Arena.Readable;
      this.width, this.hash := width, hash;
      arena := new Arena(lazy);
      ctrl, slots := new bv8[0], new u32[0];
      len, tombstones, timed, growthLeft := 0, 0, 0, 0;
      ents, model, peak := [], map[], 0;
      new;
      NothingIsConsistent(width, hash);
      assert ctrl[..] == [] && slots[..] == [];
    }

    /** The header of the entry whose parts are `p`, read out of the bytes behind `at`. */
    method HeadAt(at: u32, ghost p: Parts) returns (head: Head)
      requires arena.Readable() && Behind(Rec(p, at), arena.blocks)
      ensures head == HeadFor(p) && head.Size() == |arena.blocks[at]|
    {
      hide Encode, HeadOf, HeadFor, Head.Size;
      HeadOfPeek(p, arena.Peek(at, MAX_HEADER));
      HeadSize(p);
      head := HeadOf(arena.Peek(at, MAX_HEADER)).value;
    }

    lemma ReadableControls()
      requires Readable()
      ensures Controls(ctrl[..])
    {
      hide Spells, Placed, Counted, Stored, IsCapacity, Bounded;
    }

    /** Look for `key` in one group of its probe sequence. */
    method FindInGroup(key: Key, h: u64, g: nat) returns (r: Option<(nat, Head)>)
      requires Readable() && h == hash(key) && Base(g + 1, width) <= ctrl.Length
      ensures r.Some? ==> FullAt(ctrl[..], r.value.0) && r.value.0 < |ents| && ents[r.value.0].parts.key == key
      ensures r.Some? ==> r.value.1 == HeadFor(ents[r.value.0].parts)
      ensures r.None? ==>
          forall s: nat :: FullAt(ctrl[..], s) && s < |ents| && ents[s].parts.key == key ==> GroupOf(s, width) != g
    {
      hide Consistent, Stored, Arena.Readable, TagOf, Encode, HeadFor;
      Sizes();
      TagIsFull(h);
      var lanes := LanesOf(ctrl[..], width, g);
      var found := Match(lanes, TagOf(h));
      var n := 0;
      while n < |found|
        invariant n <= |found|
        invariant forall m :: 0 <= m < n ==> found[m] < width && ents[Base(g, width) + found[m]].parts.key != key
      {
        assert found[n] in found;
        var at := Base(g, width) + found[n];
        LaneIn(ctrl[..], width, g, found[n]);
        FullIsBehind(at);
        var head := HeadAt(slots[at], ents[at].parts);
        var bytes := arena.Get(slots[at], head.Size());
        KeyOfEntry(ents[at].parts);
        if head.Key(bytes) == key {
          return Some((at, head));
        }
        n := n + 1;
      }
      forall s: nat | FullAt(ctrl[..], s) && s < |ents| && ents[s].parts.key == key
        ensures GroupOf(s, width) != g
      {
        if GroupOf(s, width) == g {
          InFound(s, g, found);
        }
      }
      r := None;
    }

    lemma InFound(s: nat, g: nat, found: seq<nat>)
      requires Readable() && FullAt(ctrl[..], s) && s < |ents| && GroupOf(s, width) == g
          && Base(g + 1, width) <= ctrl.Length
      requires Reports(LanesOf(ctrl[..], width, g), TagOf(hash(ents[s].parts.key)), found)
      ensures Base(g, width) <= s && s - Base(g, width) in found
    {
      hide Consistent, Stored, Arena.Readable, TagOf;
      FullIsTagged(s);
      LaneIn(ctrl[..], width, g, s - Base(g, width));
    }

    /** Find the slot holding `key`: the probe stops at the first group with an empty lane. */
    method Find(key: Key, h: u64) returns (r: Option<(nat, Head)>)
      requires Readable() && h == hash(key)
      ensures r.None? <==> key !in model
      ensures r.Some? ==> FullAt(ctrl[..], r.value.0) && r.value.0 < |ents| && ents[r.value.0].parts.key == key
      ensures r.Some? ==> model[key] == ents[r.value.0] && r.value.1 == HeadFor(ents[r.value.0].parts)
    {
      hide Consistent, Stored, Arena.Readable, TagOf, Encode, HeadFor, HasEmpty, GroupAt, Groups, Base;
      Sizes();
      if slots.Length == 0 {
        NoSlotsNoKeys(Shape(), width, hash);
        return None;
      }
      var groups := Groups(ctrl.Length, width);
      ghost var c := ctrl[..];
      ghost var e := RoomToStop(Shape(), width, hash);
      var group, step := h % groups, 1;
      NextGroup(h, 0, groups);
      while true
        invariant step >= 1 && group == GroupAt(h, step - 1, groups) && step <= groups
        invariant ProbedTo(Shape().ix, width, h, key, step - 1)
        invariant forall i: nat :: i < step - 1 ==> !HasEmpty(c, width, GroupAt(h, i, groups))
        decreases groups - step
      {
        GroupIn(group, groups, width);
        r := FindInGroup(key, h, group);
        if r.Some? {
          FullIsBehind(r.value.0);
          return;
        }
        assert ProbedTo(Shape().ix, width, h, key, step);
        ReadableControls();
        ControlsIn(ctrl[..], width, group);
        EmptyIn(ctrl[..], width, group);
        var stop := AnyEmpty(LanesOf(ctrl[..], width, group));
        if stop {
          ConsistentIsIndexed(Shape(), width, hash);
          AbsentWhenEmpty(Shape().ix, width, hash, key, step - 1);
          return None;
        }
        AheadOf(Shape(), width, hash, h, step - 1, e);
        NextGroup(h, step - 1, groups);
        group := (group + step) % groups;
        step := step + 1;
      }
    }

    lemma GroupOfSlotFits(at: nat)
      requires Readable() && at < ctrl.Length
      ensures Base(GroupOf(at, width) + 1, width) <= ctrl.Length
    {
      hide Consistent, Stored;
      Sizes();
    }

    /** The first slot in `h`'s probe sequence a new entry may be placed in. */
    method FreeSlot(h: u64) returns (at: nat, ghost j: nat)
      requires Consistent(Shape(), width, hash) && ctrl.Length > 0
      ensures at < ctrl.Length && !IsFull(ctrl[at])
      ensures Groups(ctrl.Length, width) > 0 && GroupAt(h, j, Groups(ctrl.Length, width)) == GroupOf(at, width)
      ensures forall i: nat :: i < j ==> !HasEmpty(ctrl[..], width, GroupAt(h, i, Groups(ctrl.Length, width)))
    {
      hide Consistent, Stored, Arena.Readable, HasEmpty, GroupAt, Groups, Base, IsFull;
      ConsistentSizes(Shape(), width, hash);
      var groups := Groups(ctrl.Length, width);
      ghost var c := ctrl[..];
      ghost var e := RoomToStop(Shape(), width, hash);
      var group, step := h % groups, 1;
      NextGroup(h, 0, groups);
      while true
        invariant step >= 1 && group == GroupAt(h, step - 1, groups) && step <= groups
        invariant forall i: nat :: i < step - 1 ==> !HasEmpty(c, width, GroupAt(h, i, groups))
        decreases groups - step
      {
        GroupIn(group, groups, width);
        var lane := LowestFree(LanesOf(ctrl[..], width, group));
        if lane.Some? {
          LaneIn(ctrl[..], width, group, lane.value);
          return Base(group, width) + lane.value, step - 1;
        }
        EmptyIn(ctrl[..], width, group);
        MarkersAreNotFull();
        AheadOf(Shape(), width, hash, h, step - 1, e);
        NextGroup(h, step - 1, groups);
        group := (group + step) % groups;
        step := step + 1;
      }
    }

    /** Whether the group of slot `at` has an empty lane. */
    method BesideEmpty(at: nat) returns (beside: bool)
      requires Readable() && at < ctrl.Length
      ensures beside <==> HasEmpty(ctrl[..], width, GroupOf(at, width))
    {
      hide Consistent, Stored, Arena.Readable, HasEmpty, Base, GroupOf;
      var g := GroupOf(at, width);
      GroupOfSlotFits(at);
      ReadableControls();
      ControlsIn(ctrl[..], width, g);
      EmptyIn(ctrl[..], width, g);
      beside := AnyEmpty(LanesOf(ctrl[..], width, g));
    }

    /** Take slot `at` out of the index: empty beside another empty lane, because no probe ever ran past
        this group, and a tombstone otherwise. */
    method Unmark(at: nat, beside: bool, wasTimed: bool)
      requires Readable() && FullAt(ctrl[..], at) && at < |ents|
      requires beside <==> HasEmpty(ctrl[..], width, GroupOf(at, width))
      requires wasTimed <==> ents[at].parts.expiry.Some?
      modifies this, ctrl, slots
      ensures ctrl == old(ctrl) && slots == old(slots) && (ctrl as object) != (slots as object)
      ensures Consistent(Shape(), width, hash)
      ensures model == old(model) - {old(ents)[at].parts.key} && ents == old(ents)
      ensures ctrl[..] == old(ctrl[..])[at := if beside then EMPTY else DELETED]
      ensures len == old(len) - 1 && peak == old(peak)
    {
      hide Consistent, Stored, Arena.Readable, HasEmpty, Base, GroupOf, IsFull;
      Sizes();
      ghost var was := Shape();
      var c: bv8 := if beside then EMPTY else DELETED;
      DropKeeps(was, width, hash, at, c);
      model := model - {ents[at].parts.key};
      ctrl[at] := c;
      slots[at] := NONE;
      if beside {
        growthLeft := growthLeft + 1;
      } else {
        tombstones := tombstones + 1;
      }
      len := len - 1;
      if wasTimed {
        timed := timed - 1;
      }
      assert ctrl[..] == was.ix.ctrl[at := c];
      assert slots[..] == was.slots[at := NONE];
    }

    /** Drop the entry in slot `at`, leaving the slot reusable and its bytes on the arena's free lists. */
    method Erase(at: nat)
      requires Valid() && FullAt(ctrl[..], at) && at < |ents|
      modifies this, ctrl, slots, arena
      ensures Valid() && ctrl == old(ctrl) && slots == old(slots)
      ensures model == old(model) - {old(ents)[at].parts.key} && ents == old(ents)
      ensures !IsFull(ctrl[at]) && forall i :: 0 <= i < ctrl.Length && i != at ==> ctrl[i] == old(ctrl[i])
      ensures ctrl[at] == EMPTY <==> HasEmpty(old(ctrl[..]), width, GroupOf(at, width))
      ensures len == old(len) - 1 && peak == old(peak)
      ensures old(slots[at]) != NONE ==> arena.live < old(arena.live)
      ensures arena.live <= old(arena.live) && arena.blocks == Without(old(arena.blocks), old(slots[at]))
      ensures arena.Stock() == ArenaLayout.Returned(old(arena.Stock()), old(slots[at]),
          SizeOfParts(old(ents)[at].parts))
    {
      hide Consistent, Stored, Arena.Valid, Arena.Readable, HasEmpty, GroupOf, Encode, HeadFor, IsFull;
      FullIsBehind(at);
      Sizes();
      MarkersAreNotFull();
      ghost var rec := ents[at];
      var entry := slots[at];
      var head := HeadAt(entry, rec.parts);
      KeyOfEntry(rec.parts);
      SizeOfFull(at);
      StoreDrop(model, arena.blocks, rec.parts.key);
      var beside := BesideEmpty(at);
      Unmark(at, beside, head.Timed());
      arena.Free(entry, head.Size());
    }

    /** The first empty lane of `h`'s probe sequence in an index being built. */
    static method EmptySlot(c: array<bv8>, width: Width, h: u64, ghost e: nat) returns (at: nat, ghost j: nat)
      requires IsCapacity(c.Length) && Controls(c[..]) && SlotIsEmpty(c[..], e)
      ensures SlotIsEmpty(c[..], at) && Groups(c.Length, width) > 0
      ensures FirstProbed(c[..], width, h, j, GroupOf(at, width)) && FirstEmpty(c[..], width, h, at)
    {
      hide HasEmpty, GroupAt, Groups, Base, IsCapacity, Controls, GroupOf, SlotIsEmpty, FirstProbed, LanesOf;
      EmptyIsInside(c[..], e);
      GroupsOfCapacity(c.Length, width);
      var groups := Groups(c.Length, width);
      ghost var lanes := c[..];
      var group, step := h % groups, 1;
      NextGroup(h, 0, groups);
      ProbedFirst(lanes, width, h);
      while true
        invariant step >= 1 && group == GroupAt(h, step - 1, groups) && step <= groups && lanes == c[..]
        invariant FirstProbed(lanes, width, h, step - 1, group)
        decreases groups - step
      {
        GroupIn(group, groups, width);
        ControlsIn(lanes, width, group);
        LanesAreWide(lanes, width, group);
        var lane := LowestEmpty(LanesOf(c[..], width, group));
        if lane.Some? {
          LowestLaneIsFirst(lanes, width, group, lane.value);
          return Base(group, width) + lane.value, step - 1;
        }
        EmptyIn(lanes, width, group);
        StillAhead(lanes, width, h, step - 1, group, e);
        NextGroup(h, step - 1, groups);
        ProbedNext(lanes, width, h, step - 1, group);
        group := (group + step) % groups;
        step := step + 1;
      }
    }

    /** The key of the entry in a full slot, hashed, and the reference its bytes are behind. */
    method HashOfSlot(at: nat) returns (h: u64, entry: u32)
      requires Readable() && FullAt(ctrl[..], at)
      ensures at < |ents| && h == hash(ents[at].parts.key) && entry == ents[at].at
    {
      hide Consistent, Stored, Arena.Readable, Encode, HeadFor;
      FullIsBehind(at);
      entry := slots[at];
      var head := HeadAt(entry, ents[at].parts);
      KeyOfEntry(ents[at].parts);
      h := hash(head.Key(arena.Get(entry, head.Size())));
    }

    /** Carry slot `at` over into the arrays being built, if it is full. */
    method CarryOver(at: nat, c: array<bv8>, s: array<u32>, ghost now: Ix) returns (ghost next: Ix)
      requires Readable() && at < ctrl.Length && |ents| == ctrl.Length
      requires {c as object, s as object} !! {ctrl as object, slots as object} && (c as object) != (s as object)
      requires c.Length == s.Length == |now.ents| > 0 && c[..] == now.ctrl
      requires Rebuilding(Shape(), at, now, s[..], width, hash) && len <= Budget(c.Length)
      modifies c, s
      ensures c[..] == next.ctrl && |next.ents| == c.Length
      ensures Rebuilding(Shape(), at + 1, next, s[..], width, hash)
      ensures CarriedOver(Shape().ix, at, now, next, width, hash)
    {
      hide Consistent, Stored, Arena.Readable, Indexed, Rebuilding, TagOf, HasEmpty, GroupAt, GroupOf, Groups, IsFull,
        Budget, IsCapacity, SlotIsEmpty, FirstEmpty;
      ghost var was := Shape();
      if !IsFull(ctrl[at]) {
        RebuildSkip(was, at, now, s[..], width, hash);
        next := now;
      } else {
        ghost var e := RebuildHasRoom(was, at, now, s[..], width, hash);
        var h, entry := HashOfSlot(at);
        var put;
        ghost var j: nat;
        put, j := EmptySlot(c, width, h, e);
        ProbedIsBefore(c[..], width, h, j, GroupOf(put, width));
        EmptyIsInside(c[..], put);
        RebuildPut(was, at, now, s[..], width, hash, put, j);
        next := Inserted(now, put, TagOf(h), was.ix.ents[at]);
        ghost var before := s[..];
        c[put] := TagOf(h);
        s[put] := entry;
        assert s[..] == before[put := entry];
        assert Shape() == was;
      }
    }

    /** New arrays of `capacity` slots with every entry in its place: each keeps its reference and finds its slot by
        the same probe, over lanes that are empty or freshly taken. */
    method Build(capacity: nat) returns (c: array<bv8>, s: array<u32>, ghost now: Ix)
      requires Readable() && IsCapacity(capacity) && capacity > 0
      requires len <= Budget(capacity)
      ensures fresh(c) && fresh(s) && (c as object) != (s as object)
      ensures c.Length == s.Length == capacity && c[..] == now.ctrl
      ensures |ents| == |ctrl[..]| && Rebuilding(Shape(), ctrl.Length, now, s[..], width, hash)
      ensures RebuiltAs(Shape().ix, now, capacity, width, hash)
    {
      hide Consistent, Stored, Arena.Readable, Indexed, Rebuilding, IsCapacity, Blank, CarriedOver, BuiltUp, RebuiltAs;
      Sizes();
      c, s := new bv8[capacity](_ => EMPTY), new u32[capacity](_ => NONE);
      ghost var was := Shape();
      RebuildStart(was, c[..], s[..], width, hash);
      now := Blank(capacity);
      ghost var steps := [now];
      BuiltFirst(was.ix, capacity, width, hash);
      for at := 0 to slots.Length
        modifies c, s
        invariant Shape() == was
        invariant |steps| == at + 1 && steps[at] == now && BuiltUp(was.ix, steps, capacity, width, hash)
        invariant c.Length == s.Length == capacity == |now.ents| && c[..] == now.ctrl
        invariant Rebuilding(was, at, now, s[..], width, hash)
      {
        now := CarryOver(at, c, s, now);
        BuiltMore(was.ix, steps, now, capacity, width, hash);
        steps := steps + [now];
      }
      BuiltAll(was.ix, steps, capacity, width, hash);
    }

    /** Rebuild the index at `capacity` slots. */
    method Rehash(capacity: nat)
      requires Readable() && IsCapacity(capacity) && capacity > 0
      requires len <= Budget(capacity)
      requires capacity <= MIN_CAPACITY || 7 * capacity < 32 * peak
      modifies this
      ensures Readable() && fresh(ctrl) && fresh(slots)
      ensures ctrl.Length == capacity && model == old(model) && peak == old(peak)
      ensures len == old(len) && timed == old(timed) && tombstones == 0 && growthLeft == Budget(capacity) - len
      ensures RebuiltAs(old(Shape().ix), Shape().ix, capacity, width, hash)
    {
      hide Consistent, Stored, Arena.Readable, Rebuilding, IsCapacity, RebuiltAs;
      ghost var was := Shape();
      var c, s;
      ghost var now;
      c, s, now := Build(capacity);
      RebuildDone(was, now, s[..], width, hash);
      ctrl, slots := c, s;
      tombstones := 0;
      growthLeft := capacity / 8 * 7 - len;
      ents, model := now.ents, now.model;
    }

    /** Make room for at least one more insert: at the same size when tombstones took the budget, doubled
        when entries did. */
    method Reserve()
      requires Readable() && growthLeft == 0
      modifies this
      ensures Readable() && fresh(ctrl) && fresh(slots)
      ensures growthLeft > 0 && model == old(model) && len == old(len) && peak == old(peak)
      ensures tombstones == 0 && growthLeft >= len
      ensures ctrl.Length == Wanted(old(ctrl.Length), len, old(tombstones)) > 0
    {
      hide Consistent, Stored, Arena.Readable;
      Sizes();
      WantedHasRoom(Shape(), width, hash);
      var wanted := slots.Length * 2;
      if slots.Length == 0 {
        wanted := MIN_CAPACITY;
      } else if tombstones >= len {
        wanted := slots.Length;
      }
      Rehash(wanted);
    }

    /** Give back index slots the table has stopped needing, reporting whether it did. */
    method Shrink() returns (did: bool)
      requires Readable()
      modifies this
      ensures Readable() && model == old(model) && len == old(len) && peak == old(peak)
      ensures did <==> MIN_CAPACITY < old(ctrl.Length) && Shrunk(len) < old(ctrl.Length)
      ensures did ==> fresh(ctrl) && fresh(slots) && ctrl.Length == Shrunk(len)
      ensures did ==> RebuiltAs(old(Shape().ix), Shape().ix, Shrunk(len), width, hash)
      ensures slots.Length <= old(slots.Length)
      ensures !did ==> ctrl == old(ctrl) && slots == old(slots) && unchanged(this)
    {
      hide Consistent, Stored, Arena.Readable, NextPow2;
      Sizes();
      if slots.Length <= MIN_CAPACITY {
        return false;
      }
      var power := NextPow2(1, 2 * len);
      var wanted := if power < MIN_CAPACITY then MIN_CAPACITY else power;
      if wanted >= slots.Length {
        return false;
      }
      ShrunkHasRoom(Shape(), width, hash);
      Rehash(wanted);
      Sizes();
      return true;
    }

    /** Write a whole entry through the slice the arena hands out for `at`. */
    method WriteEntry(at: u32, p: Parts)
      requires arena.Valid() && arena.Readable() && at in arena.blocks
      requires Entry.Fits(p) && |arena.blocks[at]| == SizeOfParts(p)
      modifies arena
      ensures arena.Valid() && arena.Readable()
      ensures arena.blocks == old(arena.blocks)[at := Encode(p)] && arena.live == old(arena.live)
      ensures arena.Stock() == old(arena.Stock())
    {
      hide Arena.Valid, Arena.Readable, Encode, SizeOfParts;
      EncodeSize(p);
      var into := arena.Get(at, SizeOfParts(p));
      var out := Entry.Write(into, p);
      arena.Put(at, out);
    }

    /** Record that the entry in slot `at` has been rewritten where it is. */
    method Retime(at: nat, ghost p: Parts, was: bool, now: bool)
      requires Consistent(Shape(), width, hash) && FullAt(ctrl[..], at) && at < |ents| && at < slots.Length
      requires p.key == ents[at].parts.key && was == ents[at].parts.expiry.Some? && now == p.expiry.Some?
      modifies `timed, `ents, `model
      ensures Consistent(Shape(), width, hash)
      ensures model == old(model)[p.key := Rec(p, slots[at])] && ents == old(ents)[at := Rec(p, slots[at])]
    {
      hide Consistent, IsFull;
      ghost var shape := Shape();
      ghost var rec := Rec(p, slots[at]);
      ConsistentSizes(shape, width, hash);
      RewriteKeeps(shape, width, hash, at, rec);
      if was && !now {
        timed := timed - 1;
      } else if !was && now {
        timed := timed + 1;
      }
      ents, model := ents[at := rec], model[p.key := rec];
      assert slots[..] == shape.slots[at := slots[at]];
      assert ctrl[..] == shape.ix.ctrl[at := ctrl[at]];
    }

    /** Point slot `at` at the block its entry has just been written to. */
    method Repoint(at: nat, now: u32, ghost p: Parts, wasTimed: bool, isTimed: bool)
      requires Consistent(Shape(), width, hash) && (ctrl as object) != (slots as object)
      requires FullAt(ctrl[..], at) && at < |ents| && at < slots.Length && p.key == ents[at].parts.key
      requires wasTimed == ents[at].parts.expiry.Some? && isTimed == p.expiry.Some?
      modifies `timed, `ents, `model, slots
      ensures ctrl[..] == old(ctrl[..])
      ensures Consistent(Shape(), width, hash)
      ensures model == old(model)[p.key := Rec(p, now)] && ents == old(ents)[at := Rec(p, now)]
    {
      hide Consistent, IsFull;
      ghost var was := Shape();
      ghost var rec := Rec(p, now);
      ConsistentSizes(was, width, hash);
      RewriteKeeps(was, width, hash, at, rec);
      slots[at] := now;
      timed := if wasTimed && !isTimed then timed - 1 else if !wasTimed && isTimed then timed + 1 else timed;
      ents, model := ents[at := rec], model[p.key := rec];
      assert slots[..] == was.slots[at := now];
      assert ctrl[..][at := ctrl[at]] == ctrl[..];
    }

    /** Put a new entry, already written behind `now`, in the first free slot of its probe sequence. */
    method Place(now: u32, h: u64, ghost p: Parts, isTimed: bool)
      requires Consistent(Shape(), width, hash) && (ctrl as object) != (slots as object)
      requires growthLeft > 0 && ctrl.Length > 0
      requires p.key !in model && h == hash(p.key) && isTimed == p.expiry.Some?
      modifies this, ctrl, slots
      ensures ctrl == old(ctrl) && slots == old(slots)
      ensures Consistent(Shape(), width, hash)
      ensures model == old(model)[p.key := Rec(p, now)] && peak == Most(old(peak), len)
    {
      hide Consistent, Stored, Arena.Readable, IsFull, HasEmpty, GroupAt, GroupOf, Groups, TagOf;
      ghost var was := Shape();
      ghost var rec := Rec(p, now);
      ConsistentSizes(was, width, hash);
      var at;
      ghost var j: nat;
      at, j := FreeSlot(h);
      FillKeeps(was, width, hash, at, rec, j);
      if ctrl[at] == DELETED {
        tombstones := tombstones - 1;
      } else {
        growthLeft := growthLeft - 1;
      }
      ctrl[at] := TagOf(h);
      slots[at] := now;
      len := len + 1;
      if isTimed {
        timed := timed + 1;
      }
      ents, model := ents[at := rec], model[p.key := rec];
      peak := Most(peak, len);
      assert ctrl[..] == was.ix.ctrl[at := TagOf(h)];
      assert slots[..] == was.slots[at := now];
    }

    /** The map a caller sees. */
    ghost function Map(): map<Key, Parts>
      reads this
    {
      Seen(model)
    }

    /** Whether writing `p` takes a block: its key is not there, or its entry is of another size. */
    ghost predicate NeedsBlock(p: Parts)
      reads this
    {
      p.key in Map() ==> SizeOfParts(Map()[p.key]) != SizeOfParts(p)
    }

    /** What there is to hand out once a read of `key` at `now` has removed what had expired. */
    ghost function StockPast(key: Key, now: u32): ArenaLayout.Supply
      reads this, arena
    {
      if key in model && Expired(model[key].parts, now) then
        ArenaLayout.Returned(arena.Stock(), model[key].at, SizeOfParts(model[key].parts))
      else arena.Stock()
    }

    /** A refusal keeps the table readable and, unless a segment's tail had already been listed, whole. */
    ghost predicate Refused(size: nat, room: nat)
      reads this, ctrl, slots, arena
    {
      Readable() && (Valid() <==> ArenaLayout.ClassOf(size).None? || room == 0)
    }

    /** Write `p` over the entry in slot `at` in the block it already has. */
    method SetInPlace(at: nat, head: Head, p: Parts)
      requires Valid() && FullAt(ctrl[..], at) && at < |ents| && ents[at].parts.key == p.key && Entry.Fits(p)
      requires head == HeadFor(ents[at].parts) && head.Size() == SizeOfParts(p)
      modifies `timed, `ents, `model, arena
      ensures Valid()
      ensures p.key in model && model == old(model)[p.key := Rec(p, model[p.key].at)]
    {
      hide Consistent, Stored, Arena.Valid, Arena.Readable, Encode, HeadFor, SizeOfParts, IsFull;
      FullIsBehind(at);
      KeyOfEntry(ents[at].parts);
      StoreOver(model, arena.blocks, p);
      WriteEntry(slots[at], p);
      Retime(at, p, head.Timed(), p.expiry.Some?);
    }

    /** Write `p` to a block of its own and give the old block back, so a refusal leaves the old entry. */
    method SetElsewhere(at: nat, head: Head, p: Parts, granted: bool) returns (r: Result<(), ArenaLayout.Full>)
      requires Valid() && FullAt(ctrl[..], at) && at < |ents| && ents[at].parts.key == p.key && Entry.Fits(p)
      requires head == HeadFor(ents[at].parts)
      modifies this, slots, arena
      ensures ctrl == old(ctrl) && slots == old(slots) && len == old(len) && peak == old(peak)
      ensures r.Ok? ==> Valid() && p.key in model && model == old(model)[p.key := Rec(p, model[p.key].at)]
      ensures r.Err? ==> Refused(SizeOfParts(p), old(arena.Room())) && model == old(model)
      ensures r.Err? <==> ArenaLayout.Denies(old(arena.Stock()), SizeOfParts(p), granted)
      ensures r.Err? ==> ArenaLayout.Denies(arena.Stock(), SizeOfParts(p), granted) && arena.Room() == old(arena.Room())
    {
      hide Consistent, Stored, Arena.Valid, Arena.Readable, Encode, HeadFor, SizeOfParts, IsFull, ArenaLayout.ClassOf;
      FullIsBehind(at);
      KeyOfEntry(ents[at].parts);
      EncodeSize(p);
      var was := slots[at];
      var now := arena.Alloc(SizeOfParts(p), granted);
      if now.Err? {
        return Err(now.error);
      }
      StoreMove(model, old(arena.blocks), Rec(p, now.value));
      WriteEntry(now.value, p);
      assert arena.blocks == old(arena.blocks)[now.value := Encode(p)];
      arena.Free(was, head.Size());
      Repoint(at, now.value, p, head.Timed(), p.expiry.Some?);
      return Ok(());
    }

    /** Write an entry for a key that is not there. */
    method SetNew(p: Parts, h: u64, granted: bool) returns (r: Result<(), ArenaLayout.Full>)
      requires Valid() && p.key !in model && h == hash(p.key) && Entry.Fits(p)
      modifies this, ctrl, slots, arena
      ensures (ctrl == old(ctrl) && slots == old(slots)) || (fresh(ctrl) && fresh(slots))
      ensures r.Ok? ==> Valid() && p.key in model && model == old(model)[p.key := Rec(p, model[p.key].at)]
      ensures r.Err? ==> Refused(SizeOfParts(p), old(arena.Room())) && model == old(model)
      ensures r.Err? <==> ArenaLayout.Denies(old(arena.Stock()), SizeOfParts(p), granted)
      ensures r.Err? ==> ArenaLayout.Denies(arena.Stock(), SizeOfParts(p), granted) && arena.Room() == old(arena.Room())
      ensures peak == if r.Ok? then Most(old(peak), len) else old(peak)
    {
      hide Consistent, Stored, Arena.Valid, Arena.Readable, Encode, SizeOfParts, ArenaLayout.ClassOf;
      EncodeSize(p);
      if growthLeft == 0 {
        Reserve();
      }
      NoGrowthWithoutSlots(Shape(), width, hash);
      var now := arena.Alloc(SizeOfParts(p), granted);
      if now.Err? {
        return Err(now.error);
      }
      StoreNew(model, old(arena.blocks), Rec(p, now.value));
      WriteEntry(now.value, p);
      assert arena.blocks == old(arena.blocks)[now.value := Encode(p)];
      Place(now.value, h, p, p.expiry.Some?);
      return Ok(());
    }

    /** Store `value` under `key`. */
    method Set(key: Key, value: seq<byte>, h: u64, expiry: Option<u32>, flags: Option<u32>, granted: bool)
      returns (r: Result<Wrote, ArenaLayout.Full>)
      requires Valid() && h == hash(key) && Entry.Fits(Parts(key, value, expiry, flags))
      modifies this, ctrl, slots, arena
      ensures (ctrl == old(ctrl) && slots == old(slots)) || (fresh(ctrl) && fresh(slots))
      ensures r.Ok? ==> Valid() && Map() == old(Map())[key := Parts(key, value, expiry, flags)]
      ensures r.Ok? ==> (r.value == WroteNew <==> key !in old(model))
      ensures r.Err? ==>
          Map() == old(Map()) && Refused(SizeOfParts(Parts(key, value, expiry, flags)), old(arena.Room()))
      ensures var p := Parts(key, value, expiry, flags);
              && (r.Err? <==> old(NeedsBlock(p)) && ArenaLayout.Denies(old(arena.Stock()), SizeOfParts(p), granted))
              && (r.Err? ==>
                  ArenaLayout.Denies(arena.Stock(), SizeOfParts(p), granted) && arena.Room() == old(arena.Room()))
      ensures peak == if r.Ok? then Most(old(peak), len) else old(peak)
    {
      hide Consistent, Stored, Arena.Valid, Arena.Readable, HeadFor, SizeOfParts, Refused, IsFull;
      var p := Parts(key, value, expiry, flags);
      ghost var was := model;
      Counters();
      var found := Find(key, h);
      if found.Some? {
        var at, head := found.value.0, found.value.1;
        SizeOfFull(at);
        if head.Size() == SizeOfParts(p) {
          SetInPlace(at, head, p);
        } else {
          var moved := SetElsewhere(at, head, p, granted);
          if moved.Err? {
            return Err(moved.error);
          }
        }
        MapUpdate(was, model, p);
        return Ok(WroteOver);
      }
      var placed := SetNew(p, h, granted);
      if placed.Err? {
        return Err(placed.error);
      }
      MapUpdate(was, model, p);
      return Ok(WroteNew);
    }

    /** When the entry in slot `at` expires, if it does. */
    method ExpiryOf(at: nat, head: Head) returns (when: Option<u32>)
      requires Readable() && FullAt(ctrl[..], at) && at < |ents| && head == HeadFor(ents[at].parts)
      ensures when == ents[at].parts.expiry
    {
      hide Consistent, Stored, Arena.Readable, Encode, HeadFor, IsFull;
      FullIsBehind(at);
      KeyOfEntry(ents[at].parts);
      if !head.Timed() {
        return None;
      }
      when := head.Expiry(arena.Get(slots[at], head.Size()));
    }

    /** The whole entry under `key`, if it is there and has not expired; one found expired is removed. */
    method View(key: Key, h: u64, now: u32) returns (r: Option<Parts>)
      requires Valid() && h == hash(key)
      modifies this, ctrl, slots, arena
      ensures Valid() && ctrl == old(ctrl) && slots == old(slots) && peak == old(peak)
      ensures Map() == Swept(old(Map()), key, now) && arena.Stock() == old(StockPast(key, now))
      ensures r == if key in Map() then Some(Map()[key]) else None
      ensures r.Some? <==> key in old(Map()) && (old(Map())[key].expiry.None? || now < old(Map())[key].expiry.value)
    {
      hide Consistent, Stored, Arena.Valid, Arena.Readable, Encode, HeadFor, IsFull, HasEmpty;
      SeenErase(model, key);
      var found := Find(key, h);
      if found.None? {
        return None;
      }
      var at, head := found.value.0, found.value.1;
      var when := ExpiryOf(at, head);
      SizeOfFull(at);
      if when.Some? && when.value <= now {
        Erase(at);
        return None;
      }
      FullIsBehind(at);
      KeyOfEntry(ents[at].parts);
      r := Some(head.View(arena.Get(slots[at], head.Size())));
    }

    /** The value stored under `key`, if it is there and has not expired. */
    method Get(key: Key, h: u64, now: u32) returns (r: Option<seq<byte>>)
      requires Valid() && h == hash(key)
      modifies this, ctrl, slots, arena
      ensures Valid() && ctrl == old(ctrl) && slots == old(slots) && peak == old(peak)
      ensures Map() == Swept(old(Map()), key, now) && arena.Stock() == old(StockPast(key, now))
      ensures r == if key in Map() then Some(Map()[key].value) else None
      ensures r.Some? <==> key in old(Map()) && (old(Map())[key].expiry.None? || now < old(Map())[key].expiry.value)
    {
      hide Consistent, Stored, Arena.Valid, Arena.Readable, Encode, HeadFor, IsFull, HasEmpty;
      SeenErase(model, key);
      var found := Find(key, h);
      if found.None? {
        return None;
      }
      var at, head := found.value.0, found.value.1;
      var when := ExpiryOf(at, head);
      SizeOfFull(at);
      if when.Some? && when.value <= now {
        Erase(at);
        return None;
      }
      FullIsBehind(at);
      KeyOfEntry(ents[at].parts);
      r := Some(head.Value(arena.Get(slots[at], head.Size())));
    }

    /** Whether `key` is present and unexpired. */
    method Contains(key: Key, h: u64, now: u32) returns (there: bool)
      requires Valid() && h == hash(key)
      modifies this, ctrl, slots, arena
      ensures Valid() && ctrl == old(ctrl) && slots == old(slots) && peak == old(peak)
      ensures Map() == Swept(old(Map()), key, now) && arena.Stock() == old(StockPast(key, now))
      ensures there <==> key in Map()
      ensures there <==> key in old(Map()) && (old(Map())[key].expiry.None? || now < old(Map())[key].expiry.value)
    {
      hide Consistent, Stored, Arena.Valid, Arena.Readable, Encode, HeadFor, IsFull, HasEmpty;
      SeenErase(model, key);
      var found := Find(key, h);
      if found.None? {
        return false;
      }
      var when := ExpiryOf(found.value.0, found.value.1);
      SizeOfFull(found.value.0);
      if when.Some? && when.value <= now {
        Erase(found.value.0);
        return false;
      }
      there := true;
    }

    /** Remove `key`, reporting whether it was there. */
    method Remove(key: Key, h: u64) returns (went: bool)
      requires Valid() && h == hash(key)
      modifies this, ctrl, slots, arena
      ensures Valid() && ctrl == old(ctrl) && slots == old(slots) && peak == old(peak)
      ensures went <==> key in old(Map())
      ensures Map() == old(Map()) - {key}
    {
      hide Consistent, Stored, Arena.Valid, Arena.Readable, HeadFor, IsFull, HasEmpty;
      SeenErase(model, key);
      var found := Find(key, h);
      if found.None? {
        return false;
      }
      Erase(found.value.0);
      went := true;
    }

    /** Write another expiry over the one an entry already carries: four bytes over four bytes. */
    method RetimeWord(at: nat, head: Head, when: u32)
      requires Valid() && FullAt(ctrl[..], at) && at < |ents| && head == HeadFor(ents[at].parts) && head.Timed()
      modifies `timed, `ents, `model, arena
      ensures Valid()
      ensures var p := old(ents)[at].parts.(expiry := Some(when));
              p.key in model && model == old(model)[p.key := Rec(p, model[p.key].at)]
    {
      hide Consistent, Stored, Arena.Valid, Arena.Readable, Encode, HeadFor, IsFull;
      FullIsBehind(at);
      ghost var p := ents[at].parts;
      KeyOfEntry(p);
      HeadPlaces(p);
      RetimeInPlace(p, when);
      StoreOver(model, arena.blocks, p.(expiry := Some(when)));
      var size := head.Size();
      var word := head.header + head.klen + head.vlen;
      arena.Put(slots[at], Splice(arena.Get(slots[at], size), word, WordBytes(when)));
      Retime(at, p.(expiry := Some(when)), true, true);
    }

    /** Change when `key` expires, or that it does, reporting whether it was there to change. */
    method Expire(key: Key, h: u64, expiry: Option<u32>, now: u32, granted: bool)
      returns (r: Result<bool, ArenaLayout.Full>)
      requires Valid() && h == hash(key)
      modifies this, ctrl, slots, arena
      ensures ctrl == old(ctrl) && slots == old(slots) && peak == old(peak)
      ensures r.Ok? ==> Valid() && (r.value <==> key in Swept(old(Map()), key, now))
      ensures r == Ok(false) <==>
                !(key in old(Map()) && (old(Map())[key].expiry.None? || now < old(Map())[key].expiry.value))
      ensures r == Ok(true) ==> Map() == old(Map())[key := old(Map())[key].(expiry := expiry)]
      ensures r == Ok(false) ==> Map() == Swept(old(Map()), key, now)
      ensures r.Err? ==> Map() == old(Map()) && key in old(Map())
      ensures r.Err? ==> Refused(SizeOfParts(old(Map())[key].(expiry := expiry)), old(arena.Room()))
      ensures r.Err? <==>
                && key in Swept(old(Map()), key, now) && old(Map())[key].expiry.Some? != expiry.Some?
                && ArenaLayout.Denies(old(arena.Stock()), SizeOfParts(old(Map())[key].(expiry := expiry)), granted)
      ensures r.Err? ==> arena.Room() == old(arena.Room())
                         && ArenaLayout.Denies(arena.Stock(), SizeOfParts(old(Map())[key].(expiry := expiry)), granted)
    {
      hide Consistent, Stored, Arena.Valid, Arena.Readable, Encode, HeadFor, SizeOfParts, Refused, IsFull, HasEmpty;
      SeenErase(model, key);
      ghost var was := model;
      var found := Find(key, h);
      if found.None? {
        return Ok(false);
      }
      var at, head := found.value.0, found.value.1;
      var when := ExpiryOf(at, head);
      SizeOfFull(at);
      if when.Some? && when.value <= now {
        Erase(at);
        return Ok(false);
      }
      FullIsBehind(at);
      KeyOfEntry(ents[at].parts);
      if head.Timed() && expiry.Some? {
        RetimeWord(at, head, expiry.value);
        MapUpdate(was, model, was[key].parts.(expiry := expiry));
      } else if head.Timed() || expiry.Some? {
        var p := head.View(arena.Get(slots[at], head.Size())).(expiry := expiry);
        var moved := SetElsewhere(at, head, p, granted);
        if moved.Err? {
          return Err(moved.error);
        }
        MapUpdate(was, model, p);
      } else {
        assert Seen(was) == Seen(was)[key := was[key].parts];
      }
      return Ok(true);
    }

    /** Give back the entry of slot `at`, if it has one, and empty the slot. */
    method ClearSlot(at: nat, ghost was: Index.Shape, ghost left: map<Key, Rec>) returns (ghost rest: map<Key, Rec>)
      requires Consistent(was, width, hash) && |was.ix.ents| == |was.ix.ctrl| == |was.slots|
      requires Left(was.ix, at, left) && Stored(left, arena.blocks) && arena.Valid() && arena.Readable()
      requires (ctrl as object) != (slots as object) && at < ctrl.Length == slots.Length == |was.ix.ctrl|
      requires ctrl[at] == was.ix.ctrl[at] && slots[at] == was.slots[at]
      modifies ctrl, slots, arena
      ensures Left(was.ix, at + 1, rest) && Stored(rest, arena.blocks) && arena.Valid() && arena.Readable()
      ensures ctrl[..] == old(ctrl[..])[at := EMPTY] && slots[..] == old(slots[..])[at := NONE]
      ensures Reserved(arena.blocks) == Reserved(old(arena.blocks))
    {
      hide Consistent, Stored, Arena.Valid, Arena.Readable, Encode, HeadFor, Left, Spells, IsFull;
      ConsistentIsIndexed(was, width, hash);
      WhatItSpells(was.ix, width, hash);
      LeftStep(was.ix, at, left);
      rest := left;
      if IsFull(ctrl[at]) {
        var entry := slots[at];
        ghost var rec := was.ix.ents[at];
        SlotHoldsRef(was, width, hash, at);
        StoredBehind(left, arena.blocks, rec.parts.key);
        StoreDrop(left, arena.blocks, rec.parts.key);
        var head := HeadAt(entry, rec.parts);
        arena.Free(entry, head.Size());
        rest := left - {rec.parts.key};
      }
      ctrl[at] := EMPTY;
      slots[at] := NONE;
    }

    /** Walk every slot, giving back what it holds. */
    method ClearSlots()
      requires Valid()
      modifies ctrl, slots, arena
      ensures Stored(map[], arena.blocks) && arena.Valid() && arena.Readable()
      ensures forall i :: 0 <= i < ctrl.Length ==> ctrl[i] == EMPTY
      ensures Reserved(arena.blocks) == Reserved(old(arena.blocks))
    {
      hide Consistent, Stored, Arena.Valid, Arena.Readable, Left, Spells;
      Sizes();
      ghost var was := Shape();
      ghost var left := model;
      ConsistentIsIndexed(was, width, hash);
      WhatItSpells(was.ix, width, hash);
      AllLeft(was.ix);
      for at := 0 to slots.Length
        invariant Left(was.ix, at, left) && Stored(left, arena.blocks) && arena.Valid() && arena.Readable()
        invariant forall i :: 0 <= i < at ==> ctrl[i] == EMPTY
        invariant forall i :: at <= i < ctrl.Length ==> ctrl[i] == was.ix.ctrl[i] && slots[i] == was.slots[i]
        invariant Reserved(arena.blocks) == Reserved(old(arena.blocks))
      {
        ghost var c, s := ctrl[..], slots[..];
        left := ClearSlot(at, was, left);
        assert forall i :: 0 <= i < ctrl.Length && i != at ==> ctrl[..][i] == c[i] && slots[..][i] == s[i];
      }
      LeftEnds(was.ix, left);
    }

    /** Drop every entry, keeping the slots. */
    method Clear()
      requires Valid()
      modifies this, ctrl, slots, arena
      ensures Valid() && ctrl == old(ctrl) && slots == old(slots)
      ensures model == map[] && len == 0 && growthLeft == Budget(ctrl.Length) && peak == old(peak)
      ensures arena.blocks == Reserved(old(arena.blocks))
      ensures arena.live == if NONE in old(arena.blocks) then ArenaLayout.Charge(|old(arena.blocks)[NONE]|) else 0
    {
      hide Consistent, Stored, Arena.Valid, Arena.Readable;
      Sizes();
      ghost var was := Shape();
      ClearSlots();
      ClearedIsConsistent(was, width, hash, ctrl[..], slots[..]);
      len, tombstones, timed := 0, 0, 0;
      growthLeft := slots.Length / 8 * 7;
      model := map[];
      NothingOwed(arena.blocks);
      LiveIsCharges();
      ReservedCharge(old(arena.blocks));
    }

    lemma LiveIsCharges()
      requires arena.Valid()
      ensures arena.live == ArenaLayout.Charges(arena.blocks)
      ensures arena.blocks == map[] ==> arena.live == 0
    {
    }

    /** Whether the entry in slot `at` has expired by `now`. */
    method IsExpired(at: nat, now: u32) returns (expired: bool)
      requires Readable() && FullAt(ctrl[..], at)
      ensures at < |ents| && (expired <==> Expired(ents[at].parts, now))
    {
      hide Consistent, Stored, Arena.Readable, Encode, HeadFor, IsFull;
      FullIsBehind(at);
      var head := HeadAt(slots[at], ents[at].parts);
      var when := ExpiryOf(at, head);
      expired := when.Some? && when.value <= now;
    }

    /** Remove entries that expired at or before `now`, visiting at most `budget` slots from `from`. */
    method Sweep(from: nat, budget: nat, now: u32) returns (next: nat, removed: nat)
      requires Valid()
      modifies this, ctrl, slots, arena
      ensures Valid() && ctrl == old(ctrl) && slots == old(slots) && ents == old(ents) && peak == old(peak)
      ensures SweptBetween(old(Shape().ix), Shape().ix, from, budget, now)
      ensures len == old(len) - removed
      ensures next == ResumeAt(old(timed), from, budget, ctrl.Length)
    {
      hide Consistent, Stored, Arena.Valid, Arena.Readable, SweptBetween, SweptTo, IsFull, HasEmpty, GroupOf;
      Sizes();
      ghost var was := Shape();
      if timed == 0 {
        NothingTimed(was, width, hash, from, budget, now);
        return from, 0;
      }
      if slots.Length == 0 {
        SweptStart(was.ix, from, now);
        SweptDone(was, was, width, hash, from, budget, now);
        return 0, 0;
      }
      var capacity := slots.Length;
      var at := from % capacity;
      var visits := if budget < capacity then budget else capacity;
      removed := 0;
      SweptStart(was.ix, from, now);
      for n := 0 to visits
        invariant Valid() && ctrl == old(ctrl) && slots == old(slots) && ents == was.ix.ents && peak == old(peak)
        invariant ctrl.Length == capacity == |ents|
        invariant at == (from + n) % capacity
        invariant len + removed == was.len
        invariant SweptTo(was.ix, Shape().ix, from, n, now)
      {
        ghost var before := Shape().ix;
        var gone := false;
        if IsFull(ctrl[at]) {
          gone := IsExpired(at, now);
          if gone {
            Erase(at);
            removed := removed + 1;
          }
        }
        SweptStep(was.ix, before, Shape().ix, from, n, now, gone);
        ModPlus(from + n, 1, capacity);
        at := (at + 1) % capacity;
      }
      next := at;
      SweptDone(was, Shape(), width, hash, from, budget, now);
    }

    /** The first occupied slot at or after `from` that is not `spare`, wrapping once. */
    method NearestFull(from: nat, spare: Option<nat>) returns (r: Option<nat>)
      requires Readable()
      ensures r.None? <==> forall i: nat :: FullAt(ctrl[..], i) ==> spare == Some(i)
      ensures r.Some? ==> Nearest(ctrl[..], from, spare, r.value) && r.value < |ents|
    {
      hide Consistent, Stored, Arena.Readable, IsFull, Offset;
      Sizes();
      var capacity := slots.Length;
      for step := 0 to capacity
        invariant forall i: nat :: FullAt(ctrl[..], i) && spare != Some(i) ==> Offset(i, from, capacity) >= step
      {
        var at := (from + step) % capacity;
        OffsetIs(at, from, step, capacity);
        if IsFull(ctrl[at]) && spare != Some(at) {
          return Some(at);
        }
        forall i: nat | FullAt(ctrl[..], i) && spare != Some(i)
          ensures Offset(i, from, capacity) >= step + 1
        {
          OffsetIs(i, from, step, capacity);
        }
      }
      forall i: nat | FullAt(ctrl[..], i)
        ensures spare == Some(i)
      {
        OffsetBound(i, from, capacity);
      }
      return None;
    }

    /** When the entry in slot `at` expires, with no expiry reading as never. */
    method Deadline(at: nat) returns (when: u32)
      requires Readable() && FullAt(ctrl[..], at)
      ensures at < |ents| && when == DeadlineOf(ents[at].parts)
    {
      hide Consistent, Stored, Arena.Readable, Encode, HeadFor, IsFull;
      FullIsBehind(at);
      var head := HeadAt(slots[at], ents[at].parts);
      var expiry := ExpiryOf(at, head);
      when := if expiry.Some? then expiry.value else 0xFFFF_FFFF;
    }

    /** Drop one entry, the sooner to expire of the two nearest to where the sampler pointed, never the one
        in slot `spare`. */
    method EvictOne(once: nat, twice: nat, spare: Option<nat>) returns (did: bool)
      requires Valid()
      modifies this, ctrl, slots, arena
      ensures Valid() && ctrl == old(ctrl) && slots == old(slots) && ents == old(ents) && peak == old(peak)
      ensures did <==> exists i: nat :: FullAt(old(ctrl[..]), i) && spare != Some(i)
      ensures !did ==>
          ctrl[..] == old(ctrl[..]) && model == old(model) && len == old(len) && arena.blocks == old(arena.blocks)
          && arena.live == old(arena.live)
      ensures did ==>
          exists a: nat, b: nat :: Nearest(old(ctrl[..]), once, spare, a) && Nearest(old(ctrl[..]), twice, spare, b)
                                && Evicted(old(Shape().ix), Shape().ix, Sooner(old(ents), a, b))
                                && arena.blocks == Without(old(arena.blocks), RefAt(old(ents), Sooner(old(ents), a, b)))
      ensures did ==> len == old(len) - 1
      ensures did && NONE !in old(arena.blocks) ==> arena.live < old(arena.live) && NONE !in arena.blocks
    {
      hide Consistent, Stored, Arena.Valid, Arena.Readable, IsFull, HasEmpty;
      ghost var was := Shape();
      ConsistentSizes(was, width, hash);
      if len == 0 {
        NothingFull(was, width, hash);
        return false;
      }
      var first := NearestFull(once, spare);
      var second := NearestFull(twice, spare);
      if first.None? || second.None? {
        return false;
      }
      var soon := Deadline(first.value);
      var later := Deadline(second.value);
      var victim := if soon <= later then first.value else second.value;
      assert victim == Sooner(ents, first.value, second.value);
      FullIsBehind(victim);
      Erase(victim);
      assert Evicted(was.ix, Shape().ix, victim);
      did := true;
    }

    /** What the counters always say: the budget is shared out exactly, at least an eighth of the lanes are
        empty, `timed` counts the entries that can expire, and churn has not outgrown what was ever held. */
    lemma Counters()
      requires Readable()
      ensures len == |model| && len + tombstones + growthLeft == ctrl.Length / 8 * 7
      ensures ctrl.Length > 0 ==> 8 * Count(Are(ctrl[..], EMPTY)) >= ctrl.Length
      ensures |ents| == ctrl.Length && timed == Count(Timeds(ctrl[..], ents))
          && tombstones == Count(Are(ctrl[..], DELETED))
      ensures len <= peak && (ctrl.Length <= MIN_CAPACITY || 7 * ctrl.Length < 32 * peak)
    {
      hide Indexed, Stored, Arena.Readable, Count, Are, Timeds, Fulls;
      ConsistentSizes(Shape(), width, hash);
      if ctrl.Length > 0 {
        var e := RoomToStop(Shape(), width, hash);
      }
    }

    /** Bytes the index costs: one control byte and one four-byte slot each. */
    function IndexBytes(): nat
      reads this
    {
      5 * slots.Length
    }

    /** What a memory ceiling is enforced against. */
    function ChargedBytes(): nat
      reads this, arena
    {
      IndexBytes() + arena.live
    }

    function ResidentBytes(granule: nat, tables: nat): int
      requires 0 < granule
      reads this, arena
    {
      IndexBytes() + arena.ResidentBytes(granule, tables)
    }

    /** The books: what is charged is the index and exactly the entries, and is covered by what is resident. */
    lemma Ledger(granule: nat, tables: nat)
      requires Valid() && 0 < granule
      ensures NONE !in arena.blocks ==> ChargedBytes() == 5 * ctrl.Length + Owing(model)
      ensures arena.live <= ChargedBytes() <= ResidentBytes(granule, tables)
    {
      hide Consistent, Stored, Arena.Valid, Arena.Readable, Arena.HeldBytes;
      Sizes();
      arena.LiveIsCovered(granule, tables);
      LiveIsCharges();
      if NONE !in arena.blocks {
        ChargedForEntries(model, arena.blocks);
      }
    }

    /** A full slot's entry is behind the reference the slot holds. */
    lemma FullIsBehind(at: nat)
      requires Readable() && FullAt(ctrl[..], at)
      ensures at < |ents| && at < slots.Length && slots[at] == ents[at].at && Behind(ents[at], arena.blocks)
      ensures ents[at].parts.key in model && model[ents[at].parts.key] == ents[at]
    {
      hide Placed, Counted, IsCapacity, Groups, Controls, Encode, Entry.Fits, Bounded;
      Sizes();
      KeyIsThere(Shape().ix, width, hash, at);
      assert slots[..][at] == slots[at];
    }

    /** The header of a full slot's entry gives the size the entry's parts come to. */
    lemma SizeOfFull(at: nat)
      requires Readable() && FullAt(ctrl[..], at)
      ensures at < |ents| && HeadFor(ents[at].parts).Size() == SizeOfParts(ents[at].parts)
      ensures at < slots.Length && slots[at] == ents[at].at && ents[at].parts.key in model
          && model[ents[at].parts.key] == ents[at]
    {
      hide Consistent, Stored, Arena.Readable, Encode, HeadFor, IsFull, SizeOfParts, Entry.Fits;
      FullIsBehind(at);
      KeyOfEntry(ents[at].parts);
      EncodeSize(ents[at].parts);
    }

    lemma FullIsTagged(at: nat)
      requires Readable() && FullAt(ctrl[..], at)
      ensures at < |ents| && ctrl[at] == TagOf(hash(ents[at].parts.key))
    {
      hide Spells, Counted, IsCapacity, Controls, Reached, TagOf, Stored, Bounded;
      Sizes();
      assert Placed(Shape().ix, width, hash, at);
    }
  }

  ghost function Seen(model: map<Key, Rec>): map<Key, Parts>
  {
    map k | k in model :: model[k].parts
  }

  /** Whether an entry has expired by `now`. */
  predicate Expired(p: Parts, now: u32)
  {
    p.expiry.Some? && p.expiry.value <= now
  }

  /** A map after a read of `key` at `now`: an expired entry goes when it is looked at. */
  ghost function Swept(m: map<Key, Parts>, key: Key, now: u32): map<Key, Parts>
  {
    if key in m && Expired(m[key], now) then m - {key} else m
  }

  lemma LenIsSize(t: Table)
    requires t.Readable()
    ensures t.len == |t.model| == |t.Map()|
  {
    hide Indexed, Bounded, Stored;
    SeenSize(t.model);
  }

  lemma SeenSize(model: map<Key, Rec>)
    ensures |Seen(model)| == |model|
  {
    assert Seen(model).Keys == model.Keys;
  }

  lemma SeenKeys(model: map<Key, Rec>)
    ensures Seen(model).Keys == model.Keys
  {
  }

  lemma WhatATableSpells(t: Table)
    requires t.Readable()
    ensures |t.Shape().ix.ents| == |t.Shape().ix.ctrl| && Spells(t.Shape().ix)
  {
    hide Stored, Counted, Bounded, Placed;
  }

  lemma SeenErase(model: map<Key, Rec>, key: Key)
    ensures Seen(model - {key}) == Seen(model) - {key}
  {
  }

  function Least(a: nat, b: nat): nat { if a < b then a else b }

  function Most(a: nat, b: nat): nat { if a < b then b else a }

  /** Where the sweep after one of `budget` slots from `from` resumes: unmoved when nothing could have expired. */
  function ResumeAt(timed: nat, from: nat, budget: nat, capacity: nat): nat
  {
    if timed == 0 then from else if capacity == 0 then 0 else (from + Least(budget, capacity)) % capacity
  }

  /** How far past `from` a walk that wraps reaches slot `i`. */
  function Offset(i: nat, from: nat, capacity: nat): nat
    requires capacity > 0 && i < capacity
  {
    var f := from % capacity;
    if i >= f then i - f else i + capacity - f
  }

  /** Slots are as they were, except that the first `n` visited from `from` have lost what had expired. */
  ghost predicate SweptTo(was: Ix, now: Ix, from: nat, n: nat, time: u32)
  {
    && |now.ctrl| == |was.ctrl| == |was.ents| && now.ents == was.ents
    && forall i: nat :: i < |was.ctrl| ==>
                          (FullAt(now.ctrl, i) <==>
                           FullAt(was.ctrl, i)
                               && !(Offset(i, from, |was.ctrl|) < n && Expired(was.ents[i].parts, time)))
  }

  /** What a sweep does: exactly the expired entries whose slots it visits go, and the map loses exactly
      those keys and keeps the rest as they are. */
  ghost predicate SweptBetween(was: Ix, now: Ix, from: nat, budget: nat, time: u32)
  {
    && SweptTo(was, now, from, Least(budget, |was.ctrl|), time)
    && (forall k :: k in now.model <==> k in was.model && exists i: nat :: HoldsKey(now, i, k))
    && (forall k :: k in now.model ==> now.model[k] == was.model[k])
  }

  /** The slot a walk reaches at its `n`-th visit is the one at offset `n`. */
  lemma OffsetIs(i: nat, from: nat, n: nat, capacity: nat)
    requires i < capacity && n < capacity
    ensures Offset(i, from, capacity) == n <==> i == (from + n) % capacity
  {
    ModPlus(from, n, capacity);
    var f := from % capacity;
    if f + n < capacity {
      Remainder(f + n, capacity, 0, f + n);
    } else {
      Remainder(f + n, capacity, 1, f + n - capacity);
    }
  }

  lemma SweptStart(was: Ix, from: nat, time: u32)
    requires |was.ents| == |was.ctrl|
    ensures SweptTo(was, was, from, 0, time)
  {
  }

  /** One visit: the slot is emptied when its entry has expired, and otherwise left. */
  lemma SweptStep(was: Ix, before: Ix, after: Ix, from: nat, n: nat, time: u32, gone: bool)
    requires SweptTo(was, before, from, n, time) && n < |was.ctrl|
    requires |after.ctrl| == |was.ctrl| && after.ents == was.ents
    requires var at := (from + n) % |was.ctrl|;
             && (forall i: nat :: i < |was.ctrl| && i != at ==> after.ctrl[i] == before.ctrl[i])
             && (if gone then FullAt(before.ctrl, at) && Expired(was.ents[at].parts, time) && !FullAt(after.ctrl, at)
                 else (&& after.ctrl[at] == before.ctrl[at]
                       && (FullAt(before.ctrl, at) ==> !Expired(was.ents[at].parts, time))))
    ensures SweptTo(was, after, from, n + 1, time)
  {
    hide Offset, IsFull, Expired;
    var capacity := |was.ctrl|;
    forall i: nat | i < capacity
      ensures FullAt(after.ctrl, i) <==>
              FullAt(was.ctrl, i) && !(Offset(i, from, capacity) < n + 1 && Expired(was.ents[i].parts, time))
    {
      OffsetIs(i, from, n, capacity);
    }
  }

  lemma SweptDone(was: Index.Shape, now: Index.Shape, width: Width, hash: Key -> u64, from: nat, budget: nat, time: u32)
    requires Consistent(was, width, hash) && Consistent(now, width, hash)
    requires SweptTo(was.ix, now.ix, from, Least(budget, |was.ix.ctrl|), time)
    ensures SweptBetween(was.ix, now.ix, from, budget, time)
  {
    hide Counted, Bounded, Placed, Offset, Expired, IsFull, IsCapacity, Controls;
    forall k | k in now.ix.model
      ensures k in was.ix.model && now.ix.model[k] == was.ix.model[k] && exists i: nat :: HoldsKey(now.ix, i, k)
    {
      var i: nat :| HoldsKey(now.ix, i, k);
      assert FullAt(was.ix.ctrl, i);
    }
  }

  /** With no timed entry a sweep that looks at nothing removes exactly what the full walk would. */
  lemma NothingTimed(t: Index.Shape, width: Width, hash: Key -> u64, from: nat, budget: nat, time: u32)
    requires Consistent(t, width, hash) && t.timed == 0
    ensures SweptBetween(t.ix, t.ix, from, budget, time)
  {
    hide Indexed, Bounded, Offset, IsFull, Count, Fulls, Are;
    ConsistentSizes(t, width, hash);
    CountZero(Timeds(t.ix.ctrl, t.ix.ents));
    forall i: nat | FullAt(t.ix.ctrl, i)
      ensures !Expired(t.ix.ents[i].parts, time)
    {
      assert !Timeds(t.ix.ctrl, t.ix.ents)[i];
    }
    SweptDone(t, t, width, hash, from, budget, time);
  }

  lemma OffsetBound(i: nat, from: nat, capacity: nat)
    requires i < capacity
    ensures Offset(i, from, capacity) < capacity
  {
  }

  function DeadlineOf(p: Parts): u32
  {
    if p.expiry.Some? then p.expiry.value else 0xFFFF_FFFF
  }

  /** Slot `i` is the first full one at or after `from`, wrapping once, that is not spared. */
  ghost predicate Nearest(ctrl: seq<bv8>, from: nat, spare: Option<nat>, i: nat)
  {
    && FullAt(ctrl, i) && spare != Some(i)
    && forall j: nat :: FullAt(ctrl, j) && spare != Some(j) ==> Offset(i, from, |ctrl|) <= Offset(j, from, |ctrl|)
  }

  /** Of two slots the one whose entry expires sooner, the first if neither does. */
  ghost function Sooner(ents: seq<Rec>, a: nat, b: nat): nat
  {
    if a < |ents| && b < |ents| && DeadlineOf(ents[b].parts) < DeadlineOf(ents[a].parts) then b else a
  }

  ghost function RefAt(ents: seq<Rec>, i: nat): u32
  {
    if i < |ents| then ents[i].at else NONE
  }

  /** Slot `victim`'s entry went, and nothing else moved or changed. */
  ghost predicate Evicted(was: Ix, now: Ix, victim: nat)
  {
    && |now.ctrl| == |was.ctrl| == |was.ents| && now.ents == was.ents
    && FullAt(was.ctrl, victim) && !FullAt(now.ctrl, victim)
    && (forall i: nat :: i < |was.ctrl| && i != victim ==> now.ctrl[i] == was.ctrl[i])
    && now.model == was.model - {was.ents[victim].parts.key}
  }

  lemma NothingFull(t: Index.Shape, width: Width, hash: Key -> u64)
    requires Consistent(t, width, hash) && t.len == 0
    ensures forall i: nat :: !FullAt(t.ix.ctrl, i)
  {
    hide Indexed, Bounded, IsFull, Count, Are, Timeds;
    CountZero(Fulls(t.ix.ctrl));
    forall i: nat
      ensures !FullAt(t.ix.ctrl, i)
    {
      if i < |t.ix.ctrl| {
        assert !Fulls(t.ix.ctrl)[i];
      }
    }
  }

  /** Two sweeps, the second resuming where the first stopped, are one sweep of both windows. */
  lemma SweepsCompose(a: Ix, b: Ix, c: Ix, from: nat, n: nat, m: nat, time: u32)
    requires |a.ctrl| > 0 && n <= |a.ctrl|
    requires SweptTo(a, b, from, n, time) && SweptTo(b, c, from + n, m, time)
    ensures SweptTo(a, c, from, Least(n + m, |a.ctrl|), time)
  {
    hide IsFull, Expired, Offset;
    forall i: nat | i < |a.ctrl|
      ensures FullAt(c.ctrl, i) <==>
              FullAt(a.ctrl, i)
                  && !(Offset(i, from, |a.ctrl|) < Least(n + m, |a.ctrl|) && Expired(a.ents[i].parts, time))
    {
      OffsetShift(i, from, n, |a.ctrl|);
    }
  }

  /** Seen from `n` slots further on, a slot is `n` nearer, or wraps to the end. */
  lemma OffsetShift(i: nat, from: nat, n: nat, capacity: nat)
    requires i < capacity && n <= capacity
    ensures Offset(i, from, capacity) < capacity
    ensures Offset(i, from + n, capacity) ==
            if n <= Offset(i, from, capacity) then Offset(i, from, capacity) - n
            else Offset(i, from, capacity) + capacity - n
  {
    ModPlus(from, n, capacity);
    var f := from % capacity;
    if f + n < capacity {
      Remainder(f + n, capacity, 0, f + n);
    } else if f + n < 2 * capacity {
      Remainder(f + n, capacity, 1, f + n - capacity);
    }
  }

  /** A run of sweeps with nothing written between them, each resuming where the last stopped. */
  ghost predicate SweepRun(states: seq<Ix>, from: nat, n: nat, time: u32)
  {
    forall j: nat :: j + 1 < |states| ==> SweptTo(states[j], states[j + 1], from + j * n, n, time)
  }

  lemma {:induction false} SweepsCover(states: seq<Ix>, from: nat, n: nat, time: u32)
    requires |states| > 0 && |states[0].ctrl| == |states[0].ents| > 0 && n <= |states[0].ctrl|
    requires SweepRun(states, from, n, time)
    ensures SweptTo(states[0], states[|states| - 1], from, Least((|states| - 1) * n, |states[0].ctrl|), time)
  {
    hide SweptTo;
    var last := |states| - 1;
    if last == 0 {
      SweptStart(states[0], from, time);
    } else {
      var front := states[..last];
      assert SweepRun(front, from, n, time) by {
        forall j: nat | j + 1 < |front|
          ensures SweptTo(front[j], front[j + 1], from + j * n, n, time)
        {
          assert front[j] == states[j] && front[j + 1] == states[j + 1];
        }
      }
      SweepsCover(front, from, n, time);
      var done := (last - 1) * n;
      assert SweptTo(states[last - 1], states[last], from + done, n, time);
      assert last * n == done + n;
      if done <= |states[0].ctrl| {
        SweepsCompose(states[0], states[last - 1], states[last], from, done, n, time);
      } else {
        SweptAll(states[0], states[last - 1], states[last], from, from + done, n, time);
      }
    }
  }

  /** Once every slot has been visited another visit finds nothing. */
  lemma SweptAll(a: Ix, b: Ix, c: Ix, from: nat, at: nat, n: nat, time: u32)
    requires |a.ctrl| > 0
    requires SweptTo(a, b, from, |a.ctrl|, time) && SweptTo(b, c, at, n, time)
    ensures SweptTo(a, c, from, |a.ctrl|, time)
  {
    hide IsFull, Expired, Offset;
    forall i: nat | i < |a.ctrl|
      ensures Offset(i, from, |a.ctrl|) < |a.ctrl|
    {
      OffsetBound(i, from, |a.ctrl|);
    }
  }

  /** Sweeps that between them visit every slot remove every expired entry and no other. */
  lemma SweepsRemoveAllExpired(states: seq<Ix>, from: nat, n: nat, time: u32)
    requires |states| > 0 && |states[0].ctrl| == |states[0].ents| > 0 && n <= |states[0].ctrl|
    requires SweepRun(states, from, n, time) && (|states| - 1) * n >= |states[0].ctrl|
    ensures forall i: nat ::
        FullAt(states[|states| - 1].ctrl, i) <==> FullAt(states[0].ctrl, i) && !Expired(states[0].ents[i].parts, time)
  {
    hide IsFull, Expired, Offset;
    SweepsCover(states, from, n, time);
    forall i: nat | i < |states[0].ctrl|
      ensures Offset(i, from, |states[0].ctrl|) < |states[0].ctrl|
    {
      OffsetBound(i, from, |states[0].ctrl|);
    }
  }

  lemma AllLeft(ix: Ix)
    requires |ix.ents| == |ix.ctrl| && Spells(ix)
    ensures Left(ix, 0, ix.model)
  {
  }

  lemma SlotHoldsRef(t: Index.Shape, width: Width, hash: Key -> u64, at: nat)
    requires Consistent(t, width, hash) && FullAt(t.ix.ctrl, at)
    ensures |t.slots| == |t.ix.ctrl| == |t.ix.ents| && t.slots[at] == t.ix.ents[at].at
  {
  }

  lemma StoredBehind(model: map<Key, Rec>, blocks: ArenaLayout.Blocks, key: Key)
    requires Stored(model, blocks) && key in model
    ensures model[key].parts.key == key && Behind(model[key], blocks)
  {
  }

  /** What is held under the reserved reference, if anything is. */
  ghost function Reserved(blocks: ArenaLayout.Blocks): ArenaLayout.Blocks
  {
    map r | r in blocks && r == NONE :: blocks[r]
  }

  lemma ReservedCharge(blocks: ArenaLayout.Blocks)
    ensures ArenaLayout.Charges(Reserved(blocks)) == if NONE in blocks then ArenaLayout.Charge(|blocks[NONE]|) else 0
  {
    hide ArenaLayout.Charge;
    var r := Reserved(blocks);
    if NONE in blocks {
      ArenaLayout.ChargesRemove(r, NONE);
      assert r - {NONE} == map[];
    } else {
      assert r == map[];
    }
  }

  lemma NothingOwed(blocks: ArenaLayout.Blocks)
    requires Stored(map[], blocks)
    ensures blocks == Reserved(blocks)
    ensures NONE !in blocks ==> blocks == map[]
  {
    forall r | r in blocks
      ensures r == NONE
    {
      assert Owed(map[], r);
    }
  }

  lemma HeadPlaces(p: Parts)
    ensures HeadFor(p).header == |Header(p)| && HeadFor(p).klen == |p.key| && HeadFor(p).vlen == |p.value|
  {
  }

  lemma MapUpdate(was: map<Key, Rec>, now: map<Key, Rec>, p: Parts)
    requires p.key in now && now == was[p.key := Rec(p, now[p.key].at)]
    ensures Seen(now) == Seen(was)[p.key := p]
  {
  }

  lemma BuiltFirst(was: Ix, capacity: nat, width: Width, hash: Key -> u64)
    ensures BuiltUp(was, [Blank(capacity)], capacity, width, hash)
  {
    hide Blank;
  }

  lemma BuiltAll(was: Ix, steps: seq<Ix>, capacity: nat, width: Width, hash: Key -> u64)
    requires BuiltUp(was, steps, capacity, width, hash) && |steps| == |was.ctrl| + 1
    ensures RebuiltAs(was, steps[|was.ctrl|], capacity, width, hash)
  {
    hide BuiltUp;
  }

  lemma LanesAreWide(ctrl: seq<bv8>, width: Width, g: nat)
    requires Base(g + 1, width) <= |ctrl|
    ensures |LanesOf(ctrl, width, g)| == width
  {
  }

  lemma ProbedIsBefore(ctrl: seq<bv8>, width: Width, h: u64, j: nat, g: nat)
    requires Groups(|ctrl|, width) > 0 && FirstProbed(ctrl, width, h, j, g)
    ensures GroupAt(h, j, Groups(|ctrl|, width)) == g
    ensures forall i: nat :: i < j ==> !HasEmpty(ctrl, width, GroupAt(h, i, Groups(|ctrl|, width)))
  {
  }

  lemma ProbedFirst(ctrl: seq<bv8>, width: Width, h: u64)
    requires Groups(|ctrl|, width) > 0
    ensures FirstProbed(ctrl, width, h, 0, GroupAt(h, 0, Groups(|ctrl|, width)))
  {
  }

  lemma ProbedNext(ctrl: seq<bv8>, width: Width, h: u64, j: nat, g: nat)
    requires Groups(|ctrl|, width) > 0 && FirstProbed(ctrl, width, h, j, g) && !HasEmpty(ctrl, width, g)
    ensures FirstProbed(ctrl, width, h, j + 1, GroupAt(h, j + 1, Groups(|ctrl|, width)))
  {
    hide HasEmpty, GroupAt, Groups;
  }

  /** A probe that has met no empty lane yet has not been all the way round. */
  lemma StillAhead(ctrl: seq<bv8>, width: Width, h: u64, j: nat, g: nat, e: nat)
    requires IsCapacity(|ctrl|) && SlotIsEmpty(ctrl, e) && Groups(|ctrl|, width) > 0
    requires FirstProbed(ctrl, width, h, j, g) && !HasEmpty(ctrl, width, g)
    ensures j + 1 < Groups(|ctrl|, width)
  {
    hide HasEmpty, GroupAt, IsCapacity, Groups;
    GroupAhead(ctrl, width, h, j, e);
  }

  lemma GroupIn(group: nat, groups: nat, width: Width)
    requires group < groups
    ensures Base(group + 1, width) <= Base(groups, width)
  {
  }

  lemma EmptyIsInside(ctrl: seq<bv8>, at: nat)
    requires SlotIsEmpty(ctrl, at)
    ensures at < |ctrl|
  {
  }

  lemma MarkersAreNotFull()
    ensures !IsFull(EMPTY) && !IsFull(DELETED)
  {
  }

  lemma KeyOfEntry(p: Parts)
    ensures HeadFor(p).Size() == |Encode(p)| > 0 && HeadFor(p).Key(Encode(p)) == p.key
    ensures HeadFor(p).Value(Encode(p)) == p.value && HeadFor(p).Expiry(Encode(p)) == p.expiry
    ensures HeadFor(p).UserFlags(Encode(p)) == p.flags && HeadFor(p).View(Encode(p)) == p
    ensures HeadFor(p).Timed() == p.expiry.Some?
  {
    EncodeRoundTrip(p);
    HeadSize(p);
  }
}
