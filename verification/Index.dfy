/** The index of one shard as a value: control bytes, what each full slot stands for, and the finite map
    they spell. Group arithmetic is written for the two widths there are. */
module Index {
  import opened Bytes
  import opened Entry
  import opened Group
  import opened Probe

  type Key = seq<byte>

  /** Lanes in a group. */
  type Width = w: nat | w == 8 || w == 16 witness 16

  const MIN_CAPACITY := 16

  /** What a full slot holds: an entry's parts and the reference its bytes are behind. */
  datatype Rec = Rec(parts: Parts, at: u32)

  /** An index: its control bytes, its slots' records, and the map it stands for. */
  datatype Ix = Ix(ctrl: seq<bv8>, ents: seq<Rec>, model: map<Key, Rec>)

  function Base(g: nat, width: Width): nat { if width == 8 then 8 * g else 16 * g }

  function GroupOf(slot: nat, width: Width): nat { if width == 8 then slot / 8 else slot / 16 }

  ghost predicate IsCapacity(n: nat)
  {
    n == 0 || (n >= MIN_CAPACITY && IsPow2(n))
  }

  function Groups(n: nat, width: Width): nat { if width == 8 then n / 8 else n / 16 }

  /** A capacity is a whole number of groups, and their count is a power of two. */
  lemma GroupsOfCapacity(n: nat, width: Width)
    requires IsCapacity(n) && n > 0
    ensures n == Base(Groups(n, width), width) && Groups(n, width) > 0 && IsPow2(Groups(n, width))
    ensures n % 16 == 0
  {
    var k: nat :| Pow2(k) == n;
    if k < 4 {
      assert Pow2(0) == 1 && Pow2(1) == 2 && Pow2(2) == 4 && Pow2(3) == 8;
      assert false;
    }
    var m := Pow2(k - 4);
    assert Pow2(k - 3) == 2 * m && Pow2(k - 2) == 4 * m && Pow2(k - 1) == 8 * m && Pow2(k) == 16 * m;
    assert Groups(n, width) == if width == 8 then Pow2(k - 3) else m;
  }

  // ---------------------------------------------------------------------------------------------
  // Counting
  // ---------------------------------------------------------------------------------------------

  ghost function Count(s: seq<bool>): (n: nat)
    ensures n <= |s|
  {
    if s == [] then 0 else Count(s[..|s| - 1]) + (if s[|s| - 1] then 1 else 0)
  }

  lemma {:induction false} CountUpdate(s: seq<bool>, i: nat, b: bool)
    requires i < |s|
    ensures Count(s[i := b]) == Count(s) + (if b then 1 else 0) - (if s[i] then 1 else 0)
  {
    var n := |s| - 1;
    if i == n {
      assert s[i := b][..n] == s[..n];
    } else {
      assert s[i := b][..n] == s[..n][i := b];
      CountUpdate(s[..n], i, b);
    }
  }

  lemma {:induction false} CountZero(s: seq<bool>)
    ensures Count(s) == 0 <==> forall i :: 0 <= i < |s| ==> !s[i]
  {
    if s != [] {
      CountZero(s[..|s| - 1]);
    }
  }

  ghost function Fulls(ctrl: seq<bv8>): (s: seq<bool>)
    ensures |s| == |ctrl|
  {
    seq(|ctrl|, i requires 0 <= i < |ctrl| => IsFull(ctrl[i]))
  }

  ghost function Are(ctrl: seq<bv8>, c: bv8): (s: seq<bool>)
    ensures |s| == |ctrl|
  {
    seq(|ctrl|, i requires 0 <= i < |ctrl| => ctrl[i] == c)
  }

  ghost function Timeds(ctrl: seq<bv8>, ents: seq<Rec>): (s: seq<bool>)
    requires |ents| == |ctrl|
    ensures |s| == |ctrl|
  {
    seq(|ctrl|, i requires 0 <= i < |ctrl| => IsFull(ctrl[i]) && ents[i].parts.expiry.Some?)
  }

  /** Every control byte is a tag, empty or deleted, so the three counts make up the capacity. */
  lemma {:induction false} CountsMakeUp(ctrl: seq<bv8>)
    requires Controls(ctrl)
    ensures Count(Fulls(ctrl)) + Count(Are(ctrl, EMPTY)) + Count(Are(ctrl, DELETED)) == |ctrl|
  {
    if ctrl != [] {
      var n := |ctrl| - 1;
      CountsMakeUp(ctrl[..n]);
      assert Fulls(ctrl)[..n] == Fulls(ctrl[..n]);
      assert Are(ctrl, EMPTY)[..n] == Are(ctrl[..n], EMPTY);
      assert Are(ctrl, DELETED)[..n] == Are(ctrl[..n], DELETED);
      assert IsCtrl(ctrl[n]);
    }
  }

  /** What one changed control byte does to the counts. */
  lemma CountsUpdate(ctrl: seq<bv8>, at: nat, c: bv8)
    requires at < |ctrl|
    ensures Count(Fulls(ctrl[at := c]))
         == Count(Fulls(ctrl)) + (if IsFull(c) then 1 else 0) - (if IsFull(ctrl[at]) then 1 else 0)
    ensures Count(Are(ctrl[at := c], DELETED))
         == Count(Are(ctrl, DELETED)) + (if c == DELETED then 1 else 0) - (if ctrl[at] == DELETED then 1 else 0)
  {
    CountUpdate(Fulls(ctrl), at, IsFull(c));
    CountUpdate(Are(ctrl, DELETED), at, c == DELETED);
    assert Fulls(ctrl[at := c]) == Fulls(ctrl)[at := IsFull(c)];
    assert Are(ctrl[at := c], DELETED) == Are(ctrl, DELETED)[at := c == DELETED];
  }

  lemma TimedsUpdate(ctrl: seq<bv8>, ents: seq<Rec>, at: nat, c: bv8, rec: Rec)
    requires at < |ctrl| == |ents|
    ensures Count(Timeds(ctrl[at := c], ents[at := rec]))
         == Count(Timeds(ctrl, ents)) + (if IsFull(c) && rec.parts.expiry.Some? then 1 else 0)
                                      - (if IsFull(ctrl[at]) && ents[at].parts.expiry.Some? then 1 else 0)
  {
    CountUpdate(Timeds(ctrl, ents), at, IsFull(c) && rec.parts.expiry.Some?);
    assert Timeds(ctrl[at := c], ents[at := rec]) == Timeds(ctrl, ents)[at := IsFull(c) && rec.parts.expiry.Some?];
  }

  // ---------------------------------------------------------------------------------------------
  // The probe invariant
  // ---------------------------------------------------------------------------------------------

  ghost predicate SlotIsEmpty(ctrl: seq<bv8>, i: nat)
  {
    i < |ctrl| && ctrl[i] == EMPTY
  }

  /** Group `g` holds an empty lane. */
  ghost predicate HasEmpty(ctrl: seq<bv8>, width: Width, g: nat)
  {
    exists i: nat :: SlotIsEmpty(ctrl, i) && GroupOf(i, width) == g
  }

  /** The first `j + 1` probes of `hash` all miss group `g`. */
  ghost predicate Before(hash: u64, j: nat, g: nat, groups: nat)
    requires groups > 0
  {
    forall i: nat :: i <= j ==> GroupAt(hash, i, groups) != g
  }

  /** No group earlier in `hash`'s probe sequence than `g` has an empty lane. */
  ghost predicate Reached(ctrl: seq<bv8>, width: Width, hash: u64, g: nat)
    requires Groups(|ctrl|, width) > 0
  {
    var groups := Groups(|ctrl|, width);
    forall j: nat :: Before(hash, j, g, groups) ==> !HasEmpty(ctrl, width, GroupAt(hash, j, groups))
  }

  ghost predicate FullAt(ctrl: seq<bv8>, i: nat)
  {
    i < |ctrl| && IsFull(ctrl[i])
  }

  ghost predicate HoldsKey(ix: Ix, i: nat, key: Key)
    requires |ix.ents| == |ix.ctrl|
  {
    FullAt(ix.ctrl, i) && ix.ents[i].parts.key == key
  }

  /** A full slot carries its key's tag and is where a probe for its key gets to. */
  ghost predicate Placed(ix: Ix, width: Width, hash: Key -> u64, i: nat)
    requires |ix.ents| == |ix.ctrl| && FullAt(ix.ctrl, i) && Groups(|ix.ctrl|, width) > 0
  {
    var h := hash(ix.ents[i].parts.key);
    ix.ctrl[i] == TagOf(h) && Reached(ix.ctrl, width, h, GroupOf(i, width))
  }

  /** The map and the slots agree: every full slot is its key's entry, and every key has its one slot. */
  ghost predicate Spells(ix: Ix)
    requires |ix.ents| == |ix.ctrl|
  {
    && (forall i: nat ::
        FullAt(ix.ctrl, i) ==> ix.ents[i].parts.key in ix.model && ix.model[ix.ents[i].parts.key] == ix.ents[i])
    && (forall k :: k in ix.model ==> exists i: nat :: HoldsKey(ix, i, k))
    && (forall i: nat, j: nat ::
        FullAt(ix.ctrl, i) && FullAt(ix.ctrl, j) && ix.ents[i].parts.key == ix.ents[j].parts.key ==> i == j)
  }

  ghost predicate Indexed(ix: Ix, width: Width, hash: Key -> u64)
  {
    && |ix.ents| == |ix.ctrl|
    && IsCapacity(|ix.ctrl|)
    && (|ix.ctrl| > 0 ==> Groups(|ix.ctrl|, width) > 0)
    && Controls(ix.ctrl)
    && Spells(ix)
    && forall i: nat :: FullAt(ix.ctrl, i) ==> Placed(ix, width, hash, i)
  }

  /** Where a probe stops: past groups that neither hold the key nor have an empty lane, at one that has. */
  ghost predicate ProbedTo(ix: Ix, width: Width, h: u64, key: Key, j: nat)
    requires |ix.ents| == |ix.ctrl| && Groups(|ix.ctrl|, width) > 0
  {
    forall i: nat, s: nat ::
        i < j && HoldsKey(ix, s, key) ==> GroupOf(s, width) != GroupAt(h, i, Groups(|ix.ctrl|, width))
  }

  /** A probe that stops at an empty lane has looked everywhere its key could be. */
  lemma AbsentWhenEmpty(ix: Ix, width: Width, hash: Key -> u64, key: Key, j: nat)
    requires Indexed(ix, width, hash) && |ix.ctrl| > 0
    requires ProbedTo(ix, width, hash(key), key, j + 1)
    requires HasEmpty(ix.ctrl, width, GroupAt(hash(key), j, Groups(|ix.ctrl|, width)))
    ensures key !in ix.model
  {
    hide GroupAt, GroupOf, Groups, HasEmpty, TagOf, IsCapacity, Controls;
  }

  /** While some lane is empty a probe that has met no empty lane has a group still to look at. */
  lemma GroupAhead(ctrl: seq<bv8>, width: Width, h: u64, j: nat, e: nat)
    requires IsCapacity(|ctrl|) && SlotIsEmpty(ctrl, e)
    requires Groups(|ctrl|, width) > 0
    requires forall i: nat :: i <= j ==> !HasEmpty(ctrl, width, GroupAt(h, i, Groups(|ctrl|, width)))
    ensures j + 1 < Groups(|ctrl|, width)
  {
    hide GroupAt, IsPow2;
    GroupsOfCapacity(|ctrl|, width);
    var g := GroupOf(e, width);
    var i := EveryGroupOnce(h, Groups(|ctrl|, width), g);
    assert HasEmpty(ctrl, width, g);
  }

  /** With fewer full and deleted slots than slots, some lane is empty. */
  lemma SomeEmpty(ctrl: seq<bv8>) returns (e: nat)
    requires Controls(ctrl) && Count(Fulls(ctrl)) + Count(Are(ctrl, DELETED)) < |ctrl|
    ensures SlotIsEmpty(ctrl, e)
  {
    CountsMakeUp(ctrl);
    CountZero(Are(ctrl, EMPTY));
    var i :| 0 <= i < |ctrl| && Are(ctrl, EMPTY)[i];
    e := i;
  }

  // ---------------------------------------------------------------------------------------------
  // Steps
  // ---------------------------------------------------------------------------------------------

  /** Marking a slot so that no group gains an empty lane it did not have keeps every probe path. */
  lemma ReachedKept(ctrl: seq<bv8>, ctrl': seq<bv8>, width: Width, h: u64, g: nat)
    requires |ctrl'| == |ctrl| && Groups(|ctrl|, width) > 0
    requires Reached(ctrl, width, h, g)
    requires forall x: nat :: HasEmpty(ctrl', width, x) ==> HasEmpty(ctrl, width, x)
    ensures Reached(ctrl', width, h, g)
  {
    hide GroupAt, Groups, HasEmpty, Before;
  }

  /** Filling a slot gives no group an empty lane. */
  lemma FillAddsNoEmpty(ctrl: seq<bv8>, width: Width, at: nat, c: bv8, x: nat)
    requires at < |ctrl| && c != EMPTY
    requires HasEmpty(ctrl[at := c], width, x)
    ensures HasEmpty(ctrl, width, x)
  {
    hide GroupOf;
    var i: nat :| SlotIsEmpty(ctrl[at := c], i) && GroupOf(i, width) == x;
    assert SlotIsEmpty(ctrl, i);
  }

  /** Emptying a slot whose group already had an empty lane gives no group its first one. */
  lemma EmptyAddsNoEmpty(ctrl: seq<bv8>, width: Width, at: nat, x: nat)
    requires at < |ctrl| && HasEmpty(ctrl, width, GroupOf(at, width))
    requires HasEmpty(ctrl[at := EMPTY], width, x)
    ensures HasEmpty(ctrl, width, x)
  {
    hide GroupOf;
    var i: nat :| SlotIsEmpty(ctrl[at := EMPTY], i) && GroupOf(i, width) == x;
    if i != at {
      assert SlotIsEmpty(ctrl, i);
    }
  }

  ghost function Inserted(ix: Ix, at: nat, tag: bv8, rec: Rec): Ix
    requires at < |ix.ctrl| == |ix.ents|
  {
    Ix(ix.ctrl[at := tag], ix.ents[at := rec], ix.model[rec.parts.key := rec])
  }

  lemma InsertSpells(ix: Ix, at: nat, tag: bv8, rec: Rec)
    requires |ix.ents| == |ix.ctrl| && Spells(ix)
    requires at < |ix.ctrl| && !IsFull(ix.ctrl[at]) && IsFull(tag) && rec.parts.key !in ix.model
    ensures Spells(Inserted(ix, at, tag, rec))
  {
    hide IsFull;
    var k := Inserted(ix, at, tag, rec);
    forall i: nat
      ensures FullAt(k.ctrl, i) <==> FullAt(ix.ctrl, i) || i == at
    {
    }
    assert HoldsKey(k, at, rec.parts.key);
    forall key | key in k.model && key != rec.parts.key
      ensures exists i: nat :: HoldsKey(k, i, key)
    {
      var i: nat :| HoldsKey(ix, i, key);
      assert HoldsKey(k, i, key);
    }
  }

  /** Placing an absent key in the first free slot of its probe sequence keeps the index. */
  lemma InsertKeeps(ix: Ix, width: Width, hash: Key -> u64, at: nat, rec: Rec, j: nat)
    requires Indexed(ix, width, hash) && rec.parts.key !in ix.model
    requires at < |ix.ctrl| && !IsFull(ix.ctrl[at])
    requires GroupAt(hash(rec.parts.key), j, Groups(|ix.ctrl|, width)) == GroupOf(at, width)
    requires forall i: nat ::
        i < j ==> !HasEmpty(ix.ctrl, width, GroupAt(hash(rec.parts.key), i, Groups(|ix.ctrl|, width)))
    ensures Indexed(Inserted(ix, at, TagOf(hash(rec.parts.key)), rec), width, hash)
  {
    hide GroupAt, GroupOf, Groups, HasEmpty, TagOf, IsCapacity, IsFull, Spells, Reached;
    var h := hash(rec.parts.key);
    var tag := TagOf(h);
    TagIsFull(h);
    var k := Inserted(ix, at, tag, rec);
    InsertSpells(ix, at, tag, rec);
    assert Controls(k.ctrl);
    forall x: nat | HasEmpty(k.ctrl, width, x)
      ensures HasEmpty(ix.ctrl, width, x)
    {
      FillAddsNoEmpty(ix.ctrl, width, at, tag, x);
    }
    forall i: nat | FullAt(k.ctrl, i)
      ensures Placed(k, width, hash, i)
    {
      if i == at {
        ReachedHere(ix.ctrl, width, h, GroupOf(at, width), j);
        ReachedKept(ix.ctrl, k.ctrl, width, h, GroupOf(at, width));
      } else {
        assert Placed(ix, width, hash, i);
        ReachedKept(ix.ctrl, k.ctrl, width, hash(ix.ents[i].parts.key), GroupOf(i, width));
      }
    }
  }

  lemma TagIsFull(h: u64)
    ensures IsFull(TagOf(h)) && TagOf(h) != EMPTY && TagOf(h) != DELETED
  {
  }

  /** The first group a probe finds room in is reached. */
  lemma ReachedHere(ctrl: seq<bv8>, width: Width, h: u64, g: nat, j: nat)
    requires Groups(|ctrl|, width) > 0 && GroupAt(h, j, Groups(|ctrl|, width)) == g
    requires forall i: nat :: i < j ==> !HasEmpty(ctrl, width, GroupAt(h, i, Groups(|ctrl|, width)))
    ensures Reached(ctrl, width, h, g)
  {
    hide GroupAt, Groups, HasEmpty;
    forall x: nat | Before(h, x, g, Groups(|ctrl|, width))
      ensures x < j
    {
    }
  }

  ghost function Erased(ix: Ix, at: nat, c: bv8): Ix
    requires at < |ix.ctrl| == |ix.ents|
  {
    Ix(ix.ctrl[at := c], ix.ents, ix.model - {ix.ents[at].parts.key})
  }

  lemma EraseSpells(ix: Ix, at: nat, c: bv8)
    requires |ix.ents| == |ix.ctrl| && Spells(ix) && FullAt(ix.ctrl, at) && !IsFull(c)
    ensures Spells(Erased(ix, at, c))
  {
    hide IsFull;
    var k := Erased(ix, at, c);
    forall i: nat
      ensures FullAt(k.ctrl, i) <==> FullAt(ix.ctrl, i) && i != at
    {
    }
    forall key | key in k.model
      ensures exists i: nat :: HoldsKey(k, i, key)
    {
      var i: nat :| HoldsKey(ix, i, key);
      assert HoldsKey(k, i, key);
    }
  }

  /** Erasing to empty only beside another empty lane, and to deleted otherwise, hides no other key. */
  lemma EraseKeeps(ix: Ix, width: Width, hash: Key -> u64, at: nat, c: bv8)
    requires Indexed(ix, width, hash) && FullAt(ix.ctrl, at)
    requires c == DELETED || (c == EMPTY && HasEmpty(ix.ctrl, width, GroupOf(at, width)))
    ensures Indexed(Erased(ix, at, c), width, hash)
  {
    hide GroupAt, GroupOf, Groups, HasEmpty, TagOf, IsCapacity, Spells, Reached;
    var k := Erased(ix, at, c);
    EraseSpells(ix, at, c);
    assert Controls(k.ctrl);
    forall x: nat | HasEmpty(k.ctrl, width, x)
      ensures HasEmpty(ix.ctrl, width, x)
    {
      if c == EMPTY {
        EmptyAddsNoEmpty(ix.ctrl, width, at, x);
      } else {
        FillAddsNoEmpty(ix.ctrl, width, at, c, x);
      }
    }
    forall i: nat | FullAt(k.ctrl, i)
      ensures Placed(k, width, hash, i)
    {
      assert Placed(ix, width, hash, i);
      ReachedKept(ix.ctrl, k.ctrl, width, hash(ix.ents[i].parts.key), GroupOf(i, width));
    }
  }

  /** Writing a key's entry again, in place or elsewhere, moves nothing in the index. */
  lemma ReplaceKeeps(ix: Ix, width: Width, hash: Key -> u64, at: nat, rec: Rec)
    requires Indexed(ix, width, hash) && FullAt(ix.ctrl, at) && rec.parts.key == ix.ents[at].parts.key
    ensures Indexed(Inserted(ix, at, ix.ctrl[at], rec), width, hash)
  {
    hide GroupAt, GroupOf, Groups, TagOf, IsCapacity, IsFull, Reached, Controls, Spells;
    var k := Inserted(ix, at, ix.ctrl[at], rec);
    assert k.ctrl == ix.ctrl;
    ReplaceSpells(ix, at, rec);
    forall i: nat | FullAt(k.ctrl, i)
      ensures Placed(k, width, hash, i)
    {
      assert Placed(ix, width, hash, i);
    }
  }

  lemma ReplaceSpells(ix: Ix, at: nat, rec: Rec)
    requires |ix.ents| == |ix.ctrl| && Spells(ix) && FullAt(ix.ctrl, at) && rec.parts.key == ix.ents[at].parts.key
    ensures Spells(Inserted(ix, at, ix.ctrl[at], rec))
  {
    hide IsFull;
    var k := Inserted(ix, at, ix.ctrl[at], rec);
    assert k.ctrl == ix.ctrl;
    forall key | key in k.model
      ensures exists i: nat :: HoldsKey(k, i, key)
    {
      var i: nat :| HoldsKey(ix, i, key);
      assert HoldsKey(k, i, key);
    }
  }

  // ---------------------------------------------------------------------------------------------
  // The index with its counters
  // ---------------------------------------------------------------------------------------------

  /** Everything a table keeps beside the arena; `peak` is the largest number of entries it ever held. */
  datatype Shape = Shape(ix: Ix, slots: seq<u32>, len: nat, tombstones: nat, timed: nat, growthLeft: nat, peak: nat)

  /** Seven eighths of a capacity. */
  function Budget(capacity: nat): nat { capacity / 8 * 7 }

  ghost predicate Counted(t: Shape)
    requires |t.ix.ents| == |t.ix.ctrl|
  {
    && t.len == Count(Fulls(t.ix.ctrl)) == |t.ix.model|
    && t.tombstones == Count(Are(t.ix.ctrl, DELETED))
    && t.timed == Count(Timeds(t.ix.ctrl, t.ix.ents))
    && t.len + t.tombstones + t.growthLeft == Budget(|t.ix.ctrl|)
  }

  /** The index never outgrows what it once had to hold. */
  ghost predicate Bounded(t: Shape)
  {
    t.len <= t.peak && (|t.ix.ctrl| <= MIN_CAPACITY || 7 * |t.ix.ctrl| < 32 * t.peak)
  }

  ghost predicate Consistent(t: Shape, width: Width, hash: Key -> u64)
  {
    && Indexed(t.ix, width, hash)
    && |t.slots| == |t.ix.ctrl|
    && (forall i: nat :: FullAt(t.ix.ctrl, i) ==> t.slots[i] == t.ix.ents[i].at)
    && Counted(t)
    && Bounded(t)
  }

  /** At least an eighth of the lanes are empty, so every probe meets one. */
  lemma RoomToStop(t: Shape, width: Width, hash: Key -> u64) returns (e: nat)
    requires Consistent(t, width, hash) && |t.ix.ctrl| > 0
    ensures SlotIsEmpty(t.ix.ctrl, e)
    ensures 8 * Count(Are(t.ix.ctrl, EMPTY)) >= |t.ix.ctrl|
  {
    hide Spells, Placed, Count, Fulls, Are, Timeds, IsPow2, Groups;
    GroupsOfCapacity(|t.ix.ctrl|, width);
    CountsMakeUp(t.ix.ctrl);
    e := SomeEmpty(t.ix.ctrl);
  }

  /** A new entry in slot `at`: a tombstone is reused without spending growth, an empty lane spends one. */
  ghost function Filled(t: Shape, at: nat, tag: bv8, rec: Rec): Shape
    requires at < |t.ix.ctrl| == |t.ix.ents| == |t.slots|
    requires t.ix.ctrl[at] == DELETED ==> t.tombstones > 0
    requires t.ix.ctrl[at] != DELETED ==> t.growthLeft > 0
  {
    Shape(Inserted(t.ix, at, tag, rec), t.slots[at := rec.at], t.len + 1,
          if t.ix.ctrl[at] == DELETED then t.tombstones - 1 else t.tombstones,
          if rec.parts.expiry.Some? then t.timed + 1 else t.timed,
          if t.ix.ctrl[at] == DELETED then t.growthLeft else t.growthLeft - 1,
          if t.len + 1 > t.peak then t.len + 1 else t.peak)
  }

  lemma FillKeeps(t: Shape, width: Width, hash: Key -> u64, at: nat, rec: Rec, j: nat)
    requires Consistent(t, width, hash) && rec.parts.key !in t.ix.model
    requires at < |t.ix.ctrl| && !IsFull(t.ix.ctrl[at])
    requires GroupAt(hash(rec.parts.key), j, Groups(|t.ix.ctrl|, width)) == GroupOf(at, width)
    requires forall i: nat ::
        i < j ==> !HasEmpty(t.ix.ctrl, width, GroupAt(hash(rec.parts.key), i, Groups(|t.ix.ctrl|, width)))
    requires t.ix.ctrl[at] != DELETED ==> t.growthLeft > 0
    ensures t.ix.ctrl[at] == DELETED ==> t.tombstones > 0
    ensures Consistent(Filled(t, at, TagOf(hash(rec.parts.key)), rec), width, hash)
  {
    hide Indexed, Count, Fulls, Are, Timeds, GroupAt, GroupOf, Groups, HasEmpty, TagOf, IsFull, Bounded;
    SizesOf(t.ix, width, hash);
    var tag := TagOf(hash(rec.parts.key));
    TagIsFull(hash(rec.parts.key));
    InsertKeeps(t.ix, width, hash, at, rec, j);
    CountsUpdate(t.ix.ctrl, at, tag);
    TimedsUpdate(t.ix.ctrl, t.ix.ents, at, tag, rec);
    DeletedCounts(t.ix.ctrl, at);
    assert Bounded(Filled(t, at, tag, rec)) by { BoundedFill(t, at, tag, rec); }
    var u := Filled(t, at, tag, rec);
    assert forall i: nat :: FullAt(u.ix.ctrl, i) && i != at ==> FullAt(t.ix.ctrl, i);
  }

  lemma SizesOf(ix: Ix, width: Width, hash: Key -> u64)
    requires Indexed(ix, width, hash)
    ensures |ix.ents| == |ix.ctrl| && (|ix.ctrl| > 0 ==> Groups(|ix.ctrl|, width) > 0)
  {
  }

  lemma DeletedCounts(ctrl: seq<bv8>, at: nat)
    requires at < |ctrl|
    ensures ctrl[at] == DELETED ==> Count(Are(ctrl, DELETED)) > 0
  {
    CountZero(Are(ctrl, DELETED));
    assert Are(ctrl, DELETED)[at] == (ctrl[at] == DELETED);
  }

  lemma BoundedFill(t: Shape, at: nat, tag: bv8, rec: Rec)
    requires Bounded(t) && at < |t.ix.ctrl| == |t.ix.ents| == |t.slots|
    requires t.ix.ctrl[at] == DELETED ==> t.tombstones > 0
    requires t.ix.ctrl[at] != DELETED ==> t.growthLeft > 0
    ensures Bounded(Filled(t, at, tag, rec))
  {
  }

  /** The entry in slot `at` rewritten, perhaps behind another reference. */
  ghost function Rewritten(t: Shape, at: nat, rec: Rec): Shape
    requires at < |t.ix.ctrl| == |t.ix.ents| == |t.slots|
    requires t.ix.ents[at].parts.expiry.Some? && rec.parts.expiry.None? ==> t.timed > 0
  {
    t.(ix := Inserted(t.ix, at, t.ix.ctrl[at], rec), slots := t.slots[at := rec.at],
       timed := Retimed(t.timed, t.ix.ents[at].parts.expiry.Some?, rec.parts.expiry.Some?))
  }

  /** The count of timed entries after one that did or did not carry an expiry now does or does not. */
  function Retimed(timed: nat, was: bool, now: bool): nat
    requires was && !now ==> timed > 0
  {
    if was && !now then timed - 1 else if !was && now then timed + 1 else timed
  }

  lemma TimedCounts(ctrl: seq<bv8>, ents: seq<Rec>, at: nat)
    requires |ents| == |ctrl| && FullAt(ctrl, at)
    ensures ents[at].parts.expiry.Some? ==> Count(Timeds(ctrl, ents)) > 0
    ensures Count(Fulls(ctrl)) > 0
  {
    CountZero(Timeds(ctrl, ents));
    CountZero(Fulls(ctrl));
    assert Timeds(ctrl, ents)[at] == ents[at].parts.expiry.Some?;
    assert Fulls(ctrl)[at];
  }

  lemma RewriteKeeps(t: Shape, width: Width, hash: Key -> u64, at: nat, rec: Rec)
    requires Consistent(t, width, hash) && FullAt(t.ix.ctrl, at) && rec.parts.key == t.ix.ents[at].parts.key
    ensures t.ix.ents[at].parts.expiry.Some? ==> t.timed > 0
    ensures Consistent(Rewritten(t, at, rec), width, hash)
  {
    hide Indexed, Count, Fulls, Are, Timeds, Groups, IsFull;
    SizesOf(t.ix, width, hash);
    KeyIsThere(t.ix, width, hash, at);
    ReplaceKeeps(t.ix, width, hash, at, rec);
    TimedsUpdate(t.ix.ctrl, t.ix.ents, at, t.ix.ctrl[at], rec);
    TimedCounts(t.ix.ctrl, t.ix.ents, at);
    assert t.ix.ctrl[at := t.ix.ctrl[at]] == t.ix.ctrl;
  }

  /** A full slot's key maps to what the slot holds. */
  lemma KeyIsThere(ix: Ix, width: Width, hash: Key -> u64, at: nat)
    requires Indexed(ix, width, hash) && FullAt(ix.ctrl, at)
    ensures |ix.ents| == |ix.ctrl| && ix.ents[at].parts.key in ix.model
        && ix.model[ix.ents[at].parts.key] == ix.ents[at]
  {
    hide Placed, Groups, IsFull;
  }

  /** The slot a probe may make empty again, which gives its growth back, or a tombstone. */
  ghost function Dropped(t: Shape, at: nat, c: bv8): Shape
    requires at < |t.ix.ctrl| == |t.ix.ents| == |t.slots| && t.len > 0
    requires t.ix.ents[at].parts.expiry.Some? ==> t.timed > 0
  {
    Shape(Erased(t.ix, at, c), t.slots[at := 0xFFFF_FFFF], t.len - 1,
          if c == EMPTY then t.tombstones else t.tombstones + 1,
          if t.ix.ents[at].parts.expiry.Some? then t.timed - 1 else t.timed,
          if c == EMPTY then t.growthLeft + 1 else t.growthLeft,
          t.peak)
  }

  lemma DropKeeps(t: Shape, width: Width, hash: Key -> u64, at: nat, c: bv8)
    requires Consistent(t, width, hash) && FullAt(t.ix.ctrl, at)
    requires c == DELETED || (c == EMPTY && HasEmpty(t.ix.ctrl, width, GroupOf(at, width)))
    ensures t.len > 0 && (t.ix.ents[at].parts.expiry.Some? ==> t.timed > 0)
    ensures Consistent(Dropped(t, at, c), width, hash)
  {
    hide Indexed, Count, Fulls, Are, Timeds, GroupOf, Groups, HasEmpty, Budget;
    SizesOf(t.ix, width, hash);
    KeyIsThere(t.ix, width, hash, at);
    EraseKeeps(t.ix, width, hash, at, c);
    CountsUpdate(t.ix.ctrl, at, c);
    TimedsUpdate(t.ix.ctrl, t.ix.ents, at, c, t.ix.ents[at]);
    TimedCounts(t.ix.ctrl, t.ix.ents, at);
    assert t.ix.ents[at := t.ix.ents[at]] == t.ix.ents;
    var u := Dropped(t, at, c);
    assert forall i: nat :: FullAt(u.ix.ctrl, i) ==> FullAt(t.ix.ctrl, i) && i != at;
  }

  /** A table that owns no slots. */
  lemma NothingIsConsistent(width: Width, hash: Key -> u64)
    ensures Consistent(Shape(Ix([], [], map[]), [], 0, 0, 0, 0, 0), width, hash)
  {
  }

  lemma ConsistentIsIndexed(t: Shape, width: Width, hash: Key -> u64)
    requires Consistent(t, width, hash)
    ensures Indexed(t.ix, width, hash)
  {
  }

  lemma NoSlotsNoKeys(t: Shape, width: Width, hash: Key -> u64)
    requires Consistent(t, width, hash) && |t.ix.ctrl| == 0
    ensures t.ix.model == map[]
  {
    hide Counted, Bounded;
    if k :| k in t.ix.model {
      assert false;
    }
  }

  lemma AheadOf(t: Shape, width: Width, hash: Key -> u64, h: u64, j: nat, e: nat)
    requires Consistent(t, width, hash) && SlotIsEmpty(t.ix.ctrl, e)
    requires forall i: nat :: i <= j ==>
        Groups(|t.ix.ctrl|, width) > 0 && !HasEmpty(t.ix.ctrl, width, GroupAt(h, i, Groups(|t.ix.ctrl|, width)))
    ensures j + 1 < Groups(|t.ix.ctrl|, width)
  {
    hide Counted, Bounded, Spells, Placed, HasEmpty, GroupAt;
    GroupAhead(t.ix.ctrl, width, h, j, e);
  }

  // ---------------------------------------------------------------------------------------------
  // Rebuilding
  // ---------------------------------------------------------------------------------------------

  /** The lanes of group `g`. */
  function LanesOf(ctrl: seq<bv8>, width: Width, g: nat): (lanes: seq<bv8>)
    requires Base(g + 1, width) <= |ctrl|
    ensures |lanes| == width
  {
    ctrl[Base(g, width)..Base(g + 1, width)]
  }

  lemma LaneIn(ctrl: seq<bv8>, width: Width, g: nat, n: nat)
    requires Base(g + 1, width) <= |ctrl| && n < width
    ensures Base(g, width) + n < |ctrl| && GroupOf(Base(g, width) + n, width) == g
    ensures LanesOf(ctrl, width, g)[n] == ctrl[Base(g, width) + n]
  {
  }

  /** A group has an empty lane just when its control bytes hold one. */
  lemma EmptyIn(ctrl: seq<bv8>, width: Width, g: nat)
    requires Base(g + 1, width) <= |ctrl|
    ensures EMPTY in LanesOf(ctrl, width, g) <==> HasEmpty(ctrl, width, g)
  {
    if HasEmpty(ctrl, width, g) {
      var i: nat :| SlotIsEmpty(ctrl, i) && GroupOf(i, width) == g;
      assert LanesOf(ctrl, width, g)[i - Base(g, width)] == EMPTY;
    }
    if EMPTY in LanesOf(ctrl, width, g) {
      var n :| 0 <= n < width && LanesOf(ctrl, width, g)[n] == EMPTY;
      LaneIn(ctrl, width, g, n);
      assert SlotIsEmpty(ctrl, Base(g, width) + n);
    }
  }

  lemma ControlsIn(ctrl: seq<bv8>, width: Width, g: nat)
    requires Controls(ctrl) && Base(g + 1, width) <= |ctrl|
    ensures Controls(LanesOf(ctrl, width, g))
  {
    forall n | 0 <= n < width
      ensures IsCtrl(LanesOf(ctrl, width, g)[n])
    {
      LaneIn(ctrl, width, g, n);
    }
  }

  /** Slot `at` is where a rebuild puts a key of hash `h`: the lowest empty lane of the first group of its probe
      sequence that has one. */
  ghost predicate FirstEmpty(ctrl: seq<bv8>, width: Width, h: u64, at: nat)
  {
    && SlotIsEmpty(ctrl, at) && Groups(|ctrl|, width) > 0
    && (exists j: nat :: FirstProbed(ctrl, width, h, j, GroupOf(at, width)))
    && (forall i: nat :: i < at && GroupOf(i, width) == GroupOf(at, width) ==> !SlotIsEmpty(ctrl, i))
  }

  /** Group `g` is the `j`-th probed for `h`, and none before it has an empty lane. */
  ghost predicate FirstProbed(ctrl: seq<bv8>, width: Width, h: u64, j: nat, g: nat)
    requires Groups(|ctrl|, width) > 0
  {
    && GroupAt(h, j, Groups(|ctrl|, width)) == g
    && forall i: nat :: i < j ==> !HasEmpty(ctrl, width, GroupAt(h, i, Groups(|ctrl|, width)))
  }

  /** One slot of the old index carried over: left if it has no entry, and put where its key is first probed if it
      has. */
  ghost predicate CarriedOver(was: Ix, at: nat, now: Ix, next: Ix, width: Width, hash: Key -> u64)
  {
    && at < |was.ctrl| == |was.ents| && |now.ctrl| == |now.ents|
    && (!IsFull(was.ctrl[at]) ==> next == now)
    && (IsFull(was.ctrl[at]) ==>
          var h := hash(was.ents[at].parts.key);
          exists put: nat :: FirstEmpty(now.ctrl, width, h, put) && put < |now.ctrl|
                             && next == Inserted(now, put, TagOf(h), was.ents[at]))
  }

  /** `steps` are the index being built, from blank, after each of the first slots of the old one. */
  ghost predicate BuiltUp(was: Ix, steps: seq<Ix>, capacity: nat, width: Width, hash: Key -> u64)
  {
    && 0 < |steps| <= |was.ctrl| + 1 && steps[0] == Blank(capacity)
    && forall i :: 0 <= i < |steps| - 1 ==> CarriedOver(was, i, steps[i], steps[i + 1], width, hash)
  }

  /** `now` is what rebuilding `was` at `capacity` slots gives. */
  ghost predicate RebuiltAs(was: Ix, now: Ix, capacity: nat, width: Width, hash: Key -> u64)
  {
    exists steps: seq<Ix> ::
      BuiltUp(was, steps, capacity, width, hash) && |steps| == |was.ctrl| + 1 && steps[|was.ctrl|] == now
  }

  lemma BuiltMore(was: Ix, steps: seq<Ix>, next: Ix, capacity: nat, width: Width, hash: Key -> u64)
    requires BuiltUp(was, steps, capacity, width, hash) && |steps| <= |was.ctrl|
    requires CarriedOver(was, |steps| - 1, steps[|steps| - 1], next, width, hash)
    ensures BuiltUp(was, steps + [next], capacity, width, hash)
  {
    hide CarriedOver, Blank;
    var more := steps + [next];
    forall i | 0 <= i < |more| - 1
      ensures CarriedOver(was, i, more[i], more[i + 1], width, hash)
    {
      assert more[i] == steps[i];
      assert i < |steps| - 1 ==> more[i + 1] == steps[i + 1];
    }
  }

  /** The lowest empty lane of a group is the first empty slot of that group. */
  lemma LowestLaneIsFirst(ctrl: seq<bv8>, width: Width, g: nat, n: nat)
    requires Base(g + 1, width) <= |ctrl| && n < width
    requires LanesOf(ctrl, width, g)[n] == EMPTY && EMPTY !in LanesOf(ctrl, width, g)[..n]
    ensures SlotIsEmpty(ctrl, Base(g, width) + n) && GroupOf(Base(g, width) + n, width) == g
    ensures forall i: nat :: i < Base(g, width) + n && GroupOf(i, width) == g ==> !SlotIsEmpty(ctrl, i)
  {
    LaneIn(ctrl, width, g, n);
    forall i: nat | i < Base(g, width) + n && GroupOf(i, width) == g
      ensures !SlotIsEmpty(ctrl, i)
    {
      var lane := i - Base(g, width);
      LaneIn(ctrl, width, g, lane);
      assert LanesOf(ctrl, width, g)[..n][lane] == LanesOf(ctrl, width, g)[lane];
    }
  }

  /** How far a rebuild has got: the new index holds what the first `at` old slots held, and nothing else. */
  ghost predicate Rebuilding(was: Shape, at: nat, now: Ix, slots: seq<u32>, width: Width, hash: Key -> u64)
    requires |was.ix.ents| == |was.ix.ctrl|
  {
    && at <= |was.ix.ctrl|
    && Indexed(now, width, hash)
    && |slots| == |now.ctrl|
    && (forall i: nat :: FullAt(now.ctrl, i) ==> slots[i] == now.ents[i].at)
    && Count(Are(now.ctrl, DELETED)) == 0
    && Count(Fulls(now.ctrl)) == Count(Fulls(was.ix.ctrl[..at])) == |now.model|
    && Count(Timeds(now.ctrl, now.ents)) == Count(Timeds(was.ix.ctrl[..at], was.ix.ents[..at]))
    && Taken(was.ix, at, now.model)
  }

  /** `model` is the part of the old map whose slots come before `at`. */
  ghost predicate Taken(was: Ix, at: nat, model: map<Key, Rec>)
    requires |was.ents| == |was.ctrl|
  {
    && (forall k :: k in model ==> k in was.model && model[k] == was.model[k])
    && (forall i: nat :: FullAt(was.ctrl, i) ==> (was.ents[i].parts.key in model <==> i < at))
  }

  /** An index of `capacity` empty lanes. */
  ghost function Blank(capacity: nat): (ix: Ix)
    ensures |ix.ctrl| == |ix.ents| == capacity
    ensures forall i :: 0 <= i < capacity ==> ix.ctrl[i] == EMPTY
  {
    Ix(seq(capacity, _ => EMPTY), seq(capacity, _ => Rec(Parts([], [], None, None), 0)), map[])
  }

  lemma RebuildStart(was: Shape, ctrl: seq<bv8>, slots: seq<u32>, width: Width, hash: Key -> u64)
    requires Consistent(was, width, hash) && IsCapacity(|ctrl|) && |ctrl| > 0 && |slots| == |ctrl|
    requires forall i :: 0 <= i < |ctrl| ==> ctrl[i] == EMPTY
    ensures |was.ix.ents| == |was.ix.ctrl|
    ensures |Blank(|ctrl|).ents| == |ctrl| && Blank(|ctrl|).ctrl == ctrl
    ensures Rebuilding(was, 0, Blank(|ctrl|), slots, width, hash)
  {
    hide Placed, Counted, Bounded, Spells;
    GroupsOfCapacity(|ctrl|, width);
    var now := Blank(|ctrl|);
    assert forall i: nat :: !FullAt(now.ctrl, i);
    CountZero(Fulls(now.ctrl));
    CountZero(Are(now.ctrl, DELETED));
    CountZero(Timeds(now.ctrl, now.ents));
    assert Spells(now) by { NothingSpells(now); }
  }

  lemma NothingSpells(now: Ix)
    requires |now.ents| == |now.ctrl| && now.model == map[] && forall i: nat :: !FullAt(now.ctrl, i)
    ensures Spells(now)
  {
  }

  /** Counts of a prefix, one slot longer. */
  lemma PrefixCounts(ctrl: seq<bv8>, ents: seq<Rec>, at: nat)
    requires |ents| == |ctrl| && at < |ctrl|
    ensures Count(Fulls(ctrl[..at + 1])) == Count(Fulls(ctrl[..at])) + (if IsFull(ctrl[at]) then 1 else 0)
    ensures Count(Timeds(ctrl[..at + 1], ents[..at + 1]))
         == Count(Timeds(ctrl[..at], ents[..at])) + (if IsFull(ctrl[at]) && ents[at].parts.expiry.Some? then 1 else 0)
  {
    hide IsFull;
    assert Fulls(ctrl[..at + 1])[..at] == Fulls(ctrl[..at]);
    assert Timeds(ctrl[..at + 1], ents[..at + 1])[..at] == Timeds(ctrl[..at], ents[..at]);
  }

  lemma RebuildSkip(was: Shape, at: nat, now: Ix, slots: seq<u32>, width: Width, hash: Key -> u64)
    requires |was.ix.ents| == |was.ix.ctrl| && Rebuilding(was, at, now, slots, width, hash)
    requires at < |was.ix.ctrl| && !IsFull(was.ix.ctrl[at])
    ensures Rebuilding(was, at + 1, now, slots, width, hash)
  {
    hide Indexed, Count, Fulls, Are, Timeds, IsFull;
    PrefixCounts(was.ix.ctrl, was.ix.ents, at);
  }

  lemma TakenMore(was: Ix, at: nat, model: map<Key, Rec>)
    requires |was.ents| == |was.ctrl| && Spells(was) && Taken(was, at, model) && FullAt(was.ctrl, at)
    ensures was.ents[at].parts.key !in model
    ensures Taken(was, at + 1, model[was.ents[at].parts.key := was.ents[at]])
  {
    hide IsFull;
  }

  lemma RebuildPut(was: Shape, at: nat, now: Ix, slots: seq<u32>, width: Width, hash: Key -> u64, put: nat, j: nat)
    requires Consistent(was, width, hash)
    requires |was.ix.ents| == |was.ix.ctrl| && Rebuilding(was, at, now, slots, width, hash)
    requires FullAt(was.ix.ctrl, at)
    requires SlotIsEmpty(now.ctrl, put) && Groups(|now.ctrl|, width) > 0
    requires GroupAt(hash(was.ix.ents[at].parts.key), j, Groups(|now.ctrl|, width)) == GroupOf(put, width)
    requires forall i: nat ::
        i < j ==> !HasEmpty(now.ctrl, width, GroupAt(hash(was.ix.ents[at].parts.key), i, Groups(|now.ctrl|, width)))
    ensures |now.ents| == |now.ctrl| == |slots|
    ensures Rebuilding(was, at + 1, Inserted(now, put, TagOf(hash(was.ix.ents[at].parts.key)), was.ix.ents[at]),
                       slots[put := was.ix.ents[at].at], width, hash)
  {
    hide Indexed, Count, Fulls, Are, Timeds, IsFull, GroupAt, GroupOf, Groups, HasEmpty, TagOf, Counted, Bounded, Taken;
    var rec := was.ix.ents[at];
    var tag := TagOf(hash(rec.parts.key));
    SizesOf(now, width, hash);
    TagIsFull(hash(rec.parts.key));
    EmptyIsNotFull();
    WhatItSpells(was.ix, width, hash);
    TakenMore(was.ix, at, now.model);
    InsertKeeps(now, width, hash, put, rec, j);
    PrefixCounts(was.ix.ctrl, was.ix.ents, at);
    CountsUpdate(now.ctrl, put, tag);
    TimedsUpdate(now.ctrl, now.ents, put, tag, rec);
    var k := Inserted(now, put, tag, rec);
    assert forall i: nat :: FullAt(k.ctrl, i) && i != put ==> FullAt(now.ctrl, i);
  }

  lemma EmptyIsNotFull()
    ensures !IsFull(EMPTY) && EMPTY != DELETED
  {
  }

  lemma WhatItSpells(ix: Ix, width: Width, hash: Key -> u64)
    requires Indexed(ix, width, hash)
    ensures |ix.ents| == |ix.ctrl| && Spells(ix)
  {
  }

  /** A finished rebuild is the same map, with no tombstones and the whole budget less its entries. */
  lemma RebuildDone(was: Shape, now: Ix, slots: seq<u32>, width: Width, hash: Key -> u64)
    requires Consistent(was, width, hash) && |was.ix.ents| == |was.ix.ctrl|
    requires Rebuilding(was, |was.ix.ctrl|, now, slots, width, hash)
    requires was.len <= Budget(|now.ctrl|)
    requires |now.ctrl| <= MIN_CAPACITY || 7 * |now.ctrl| < 32 * was.peak
    ensures now.model == was.ix.model
    ensures Consistent(Shape(now, slots, was.len, 0, was.timed, Budget(|now.ctrl|) - was.len, was.peak), width, hash)
  {
    hide Indexed, Count, Fulls, Are, Timeds, IsFull, Budget;
    WhatItSpells(was.ix, width, hash);
    assert was.ix.ctrl[..|was.ix.ctrl|] == was.ix.ctrl && was.ix.ents[..|was.ix.ctrl|] == was.ix.ents;
    AllTaken(was.ix, now.model);
  }

  lemma AllTaken(was: Ix, model: map<Key, Rec>)
    requires |was.ents| == |was.ctrl| && Spells(was) && Taken(was, |was.ctrl|, model)
    ensures model == was.model
  {
    forall k | k in was.model
      ensures k in model
    {
      var i: nat :| HoldsKey(was, i, k);
    }
  }

  /** There is always an empty lane to put the next entry in. */
  lemma RebuildHasRoom(was: Shape, at: nat, now: Ix, slots: seq<u32>, width: Width, hash: Key -> u64) returns (e: nat)
    requires Consistent(was, width, hash) && |was.ix.ents| == |was.ix.ctrl|
    requires Rebuilding(was, at, now, slots, width, hash) && at < |was.ix.ctrl|
    requires |now.ctrl| > 0 && was.len <= Budget(|now.ctrl|)
    ensures SlotIsEmpty(now.ctrl, e) && IsCapacity(|now.ctrl|) && Controls(now.ctrl)
  {
    hide Placed, Count, Fulls, Are, Timeds, Spells, IsPow2, Groups, Taken;
    GroupsOfCapacity(|now.ctrl|, width);
    CountPrefix(was.ix.ctrl, at);
    e := SomeEmpty(now.ctrl);
  }

  lemma {:induction false} CountPrefix(ctrl: seq<bv8>, at: nat)
    requires at <= |ctrl|
    ensures Count(Fulls(ctrl[..at])) <= Count(Fulls(ctrl))
    decreases |ctrl|
  {
    if at < |ctrl| {
      var n := |ctrl| - 1;
      assert Fulls(ctrl)[..n] == Fulls(ctrl[..n]);
      CountPrefix(ctrl[..n], at);
      assert ctrl[..n][..at] == ctrl[..at];
    } else {
      assert ctrl[..at] == ctrl;
    }
  }

  lemma SixteenIsCapacity()
    ensures IsCapacity(16) && IsPow2(16) && IsPow2(1)
  {
    assert Pow2(0) == 1 && Pow2(1) == 2 && Pow2(2) == 4 && Pow2(3) == 8 && Pow2(4) == 16;
  }

  /** What `Reserve` asks for. */
  function Wanted(capacity: nat, len: nat, tombstones: nat): nat
  {
    if capacity == 0 then MIN_CAPACITY else if tombstones >= len then capacity else 2 * capacity
  }

  /** A rebuild asked for at a spent budget leaves room for as many again, and doubles only for entries that are there:
      the index is never larger than four and four sevenths times the most it has held, or the minimum. */
  lemma WantedHasRoom(t: Shape, width: Width, hash: Key -> u64)
    requires Consistent(t, width, hash) && t.growthLeft == 0
    ensures var w := Wanted(|t.ix.ctrl|, t.len, t.tombstones);
            && IsCapacity(w) && w > 0 && t.len < Budget(w) && 2 * t.len <= Budget(w)
            && (w <= MIN_CAPACITY || 7 * w < 32 * t.peak)
  {
    hide Spells, Placed, Count, Fulls, Are, Timeds, IsPow2, Groups, Budget, Wanted;
    SixteenIsCapacity();
    if |t.ix.ctrl| > 0 {
      GroupsOfCapacity(|t.ix.ctrl|, width);
      DoublePow2(|t.ix.ctrl|);
    }
    WantedArithmetic(|t.ix.ctrl|, t.len, t.tombstones, t.peak);
  }

  lemma WantedArithmetic(capacity: nat, len: nat, tombstones: nat, peak: nat)
    requires capacity % 16 == 0 && len + tombstones == Budget(capacity) && len <= peak
    requires capacity <= MIN_CAPACITY || 7 * capacity < 32 * peak
    ensures var w := Wanted(capacity, len, tombstones);
            && (w == MIN_CAPACITY || (capacity > 0 && (w == capacity || w == 2 * capacity)))
            && w > 0 && len < Budget(w) && 2 * len <= Budget(w) && (w <= MIN_CAPACITY || 7 * w < 32 * peak)
  {
    var q := capacity / 16;
    assert capacity == 16 * q && Budget(capacity) == 14 * q && Budget(2 * capacity) == 28 * q;
  }

  /** What `Shrink` asks for: half full, and never under the minimum. */
  function Shrunk(len: nat): nat
  {
    var w := NextPow2(1, 2 * len);
    if w < MIN_CAPACITY then MIN_CAPACITY else w
  }

  lemma ShrunkHasRoom(t: Shape, width: Width, hash: Key -> u64)
    requires Consistent(t, width, hash) && MIN_CAPACITY < |t.ix.ctrl| && Shrunk(t.len) < |t.ix.ctrl|
    ensures var w := Shrunk(t.len);
            && IsCapacity(w) && w > 0 && t.len < Budget(w)
            && (w <= MIN_CAPACITY || 7 * w < 32 * t.peak)
  {
    hide Spells, Placed, Count, Fulls, Are, Timeds, IsPow2, Groups;
    SixteenIsCapacity();
    NextPow2IsPow2(1, 2 * t.len);
    GroupsOfCapacity(Shrunk(t.len), width);
  }

  // ---------------------------------------------------------------------------------------------
  // Clearing
  // ---------------------------------------------------------------------------------------------

  /** `left` is the part of the map whose slots are `at` and after. */
  ghost predicate Left(was: Ix, at: nat, left: map<Key, Rec>)
    requires |was.ents| == |was.ctrl|
  {
    && (forall k :: k in left ==> k in was.model && left[k] == was.model[k])
    && (forall i: nat :: FullAt(was.ctrl, i) ==> (was.ents[i].parts.key in left <==> at <= i))
  }

  lemma LeftStep(was: Ix, at: nat, left: map<Key, Rec>)
    requires |was.ents| == |was.ctrl| && Spells(was) && Left(was, at, left) && at < |was.ctrl|
    ensures !FullAt(was.ctrl, at) ==> Left(was, at + 1, left)
    ensures FullAt(was.ctrl, at) ==> was.ents[at].parts.key in left && left[was.ents[at].parts.key] == was.ents[at]
    ensures FullAt(was.ctrl, at) ==> Left(was, at + 1, left - {was.ents[at].parts.key})
  {
    hide IsFull;
  }

  lemma LeftEnds(was: Ix, left: map<Key, Rec>)
    requires |was.ents| == |was.ctrl| && Spells(was) && Left(was, |was.ctrl|, left)
    ensures left == map[]
  {
    if k :| k in left {
      assert false;
    }
  }

  /** All lanes empty is the empty map, with the whole budget. */
  lemma ClearedIsConsistent(was: Shape, width: Width, hash: Key -> u64, ctrl: seq<bv8>, slots: seq<u32>)
    requires Consistent(was, width, hash)
    requires |ctrl| == |slots| == |was.ix.ctrl| && forall i :: 0 <= i < |ctrl| ==> ctrl[i] == EMPTY
    ensures Consistent(Shape(Ix(ctrl, was.ix.ents, map[]), slots, 0, 0, 0, Budget(|ctrl|), was.peak), width, hash)
  {
    hide Placed, Spells;
    var now := Ix(ctrl, was.ix.ents, map[]);
    assert forall i: nat :: !FullAt(now.ctrl, i);
    CountZero(Fulls(now.ctrl));
    CountZero(Are(now.ctrl, DELETED));
    CountZero(Timeds(now.ctrl, now.ents));
    NothingSpells(now);
  }

  lemma ConsistentSizes(t: Shape, width: Width, hash: Key -> u64)
    requires Consistent(t, width, hash)
    ensures |t.ix.ctrl| == |t.slots| == |t.ix.ents|
    ensures |t.ix.ctrl| > 0 ==> Groups(|t.ix.ctrl|, width) > 0
    ensures |t.ix.ctrl| == Base(Groups(|t.ix.ctrl|, width), width)
  {
    hide Spells, Placed, Counted;
    if |t.ix.ctrl| > 0 {
      GroupsOfCapacity(|t.ix.ctrl|, width);
    }
  }

  lemma NoGrowthWithoutSlots(t: Shape, width: Width, hash: Key -> u64)
    requires Consistent(t, width, hash)
    ensures t.growthLeft > 0 ==> |t.ix.ctrl| > 0
  {
    hide Spells, Placed;
  }
}
