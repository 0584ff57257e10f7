/** What a map operation does to one shard while it holds the shard's lock: write, then evict to fit. */
module Shard {
  import opened Bytes
  import opened Entry
  import opened Group
  import opened Index
  import ArenaLayout
  import opened ArenaModel
  import opened TableModel
  import Decimal

  /** Most entries one write evicts. */
  const MOST := 64

  datatype When = Always | Absent | Present

  datatype Deadline = At(when: u32) | Never | Keep

  datatype Uncounted = NotANumber | OutOfRange | OutOfMemory

  /** `now` keeps some of what `was` held, each exactly as it was. */
  ghost predicate Keeps(was: map<Key, Parts>, now: map<Key, Parts>)
  {
    forall k :: k in now ==> k in was && now[k] == was[k]
  }

  /** What evicting on behalf of `key` may do: it goes through at most `MOST` other entries. */
  ghost predicate EvictedFor(was: map<Key, Parts>, now: map<Key, Parts>, key: Key)
  {
    Keeps(was, now) && (key in was ==> key in now) && |was| <= |now| + MOST
  }

  /** What a table holds at one moment: its entries, and the blocks it is charged for. */
  datatype Holding = Holding(model: map<Key, Rec>, blocks: ArenaLayout.Blocks)

  /** What a table of `capacity` slots holding `h` is charged. */
  ghost function ChargeOf(h: Holding, capacity: nat): nat
  {
    5 * capacity + ArenaLayout.Charges(h.blocks)
  }

  /** One entry went, not `key`'s, and its block with it. */
  ghost predicate OneGone(a: Holding, b: Holding, key: Key)
  {
    exists k :: k in a.model && k != key && b.model == a.model - {k} && b.blocks == Without(a.blocks, a.model[k].at)
  }

  /** What was held before each of `n` evictions and after the last: each took one entry, and each was made while
      what was held was charged more than `budget`. */
  ghost predicate EvictedOver(held: seq<Holding>, n: nat, key: Key, capacity: nat, budget: nat)
  {
    && |held| == n + 1
    && (forall i :: 0 <= i < n ==> ChargeOf(held[i], capacity) > budget)
    && (forall i :: 0 <= i < n ==> OneGone(held[i], held[i + 1], key))
  }

  lemma EvictedNone(h: Holding, key: Key, capacity: nat, budget: nat)
    ensures EvictedOver([h], 0, key, capacity, budget)
  {
  }

  lemma EvictedOneMore(held: seq<Holding>, n: nat, key: Key, capacity: nat, budget: nat, next: Holding)
    requires EvictedOver(held, n, key, capacity, budget) && OneGone(held[n], next, key)
        && ChargeOf(held[n], capacity) > budget
    ensures EvictedOver(held + [next], n + 1, key, capacity, budget)
  {
    hide OneGone, ChargeOf;
    var more := held + [next];
    forall i | 0 <= i < n + 1
      ensures OneGone(more[i], more[i + 1], key) && ChargeOf(more[i], capacity) > budget
    {
      assert more[i] == held[i];
      assert i < n ==> more[i + 1] == held[i + 1];
    }
  }

  /** Each eviction lowers what is charged, unless it is of the entry under the reserved reference. */
  lemma EvictionLowersCharge(a: Holding, b: Holding, key: Key, capacity: nat)
    requires Stored(a.model, a.blocks) && OneGone(a, b, key)
    ensures NONE !in a.blocks ==> ChargeOf(b, capacity) < ChargeOf(a, capacity) && NONE !in b.blocks
    ensures Stored(b.model, b.blocks)
  {
    hide Entry.Fits, Encode;
    var k :| k in a.model && k != key && b.model == a.model - {k} && b.blocks == Without(a.blocks, a.model[k].at);
    StoreDrop(a.model, a.blocks, k);
    StoredBehind(a.model, a.blocks, k);
    KeyOfEntry(a.model[k].parts);
    if a.model[k].at != NONE {
      ArenaLayout.ChargesRemove(a.blocks, a.model[k].at);
    }
  }

  lemma ChargedIs(t: Table)
    requires t.Valid()
    ensures t.ChargedBytes() == ChargeOf(Holding(t.model, t.arena.blocks), t.ctrl.Length)
  {
    hide Consistent, Stored, Arena.Readable;
    t.Sizes();
    t.LiveIsCharges();
  }

  /** Evict until the table fits in `budget`, sparing what `key` holds. `sampler` stands for the stepped
      random numbers; the slot spared stays valid because erasing moves nothing. `held` is what the table held
      before each eviction and after the last. */
  method EvictToFit(t: Table, budget: nat, key: Key, h: u64, sampler: nat -> (nat, nat))
    returns (went: nat, ghost held: seq<Holding>)
    requires t.Valid() && h == t.hash(key)
    modifies t, t.ctrl, t.slots, t.arena
    ensures t.Valid() && (t.ctrl == old(t.ctrl) || fresh(t.ctrl)) && (t.slots == old(t.slots) || fresh(t.slots))
    ensures EvictedFor(old(t.Map()), t.Map(), key) && |old(t.Map())| == |t.Map()| + went && went <= MOST
    ensures budget == 0 || old(t.ChargedBytes()) <= budget ==> t.Map() == old(t.Map())
    ensures EvictedOver(held, went, key, old(t.ctrl.Length), budget)
    ensures held[0] == Holding(old(t.model), old(t.arena.blocks)) && held[went] == Holding(t.model, t.arena.blocks)
    ensures budget > 0 && ChargeOf(held[went], old(t.ctrl.Length)) > budget ==> went == MOST || t.Map().Keys <= {key}
    ensures budget > 0 && t.ChargedBytes() > budget ==> went == MOST || t.Map().Keys <= {key}
    ensures NONE !in old(t.arena.blocks) ==> t.ChargedBytes() + went <= old(t.ChargedBytes()) && NONE !in t.arena.blocks
  {
    hide Table.Readable, Arena.Valid, Keeps, HeadFor, Seen, IsFull, EvictedOver, ChargeOf;
    LenIsSize(t);
    KeepsItself(t.Map());
    ChargedIs(t);
    if budget == 0 || t.ChargedBytes() <= budget {
      EvictedNone(Holding(t.model, t.arena.blocks), key, t.ctrl.Length, budget);
      return 0, [Holding(t.model, t.arena.blocks)];
    }
    var found := t.Find(key, h);
    var spare := if found.Some? then Some(found.value.0) else None;
    SeenKeys(t.model);
    went, held := EvictWhileOver(t, budget, spare, key, sampler);
    KeyIsSpared(t, spare, key);
    if went > 0 {
      var did := t.Shrink();
    }
  }

  /** Evict one entry at a time, never the one in slot `spare`, while the table is over its budget. */
  method EvictWhileOver(t: Table, budget: nat, spare: Option<nat>, key: Key, sampler: nat -> (nat, nat))
    returns (went: nat, ghost held: seq<Holding>)
    requires t.Valid() && Spared(t, spare, key) && (spare.None? ==> key !in t.model)
    modifies t, t.ctrl, t.slots, t.arena
    ensures t.Valid() && t.ctrl == old(t.ctrl) && t.slots == old(t.slots) && Spared(t, spare, key)
    ensures Keeps(old(t.Map()), t.Map()) && |old(t.Map())| == |t.Map()| + went && went <= MOST
    ensures EvictedOver(held, went, key, t.ctrl.Length, budget) && |held| == went + 1
    ensures held[0] == Holding(old(t.model), old(t.arena.blocks)) && held[went] == Holding(t.model, t.arena.blocks)
    ensures t.ChargedBytes() == ChargeOf(held[went], t.ctrl.Length)
    ensures t.ChargedBytes() > budget ==> went == MOST || t.Map().Keys <= {key}
    ensures NONE !in old(t.arena.blocks) ==> t.ChargedBytes() + went <= old(t.ChargedBytes()) && NONE !in t.arena.blocks
  {
    hide Table.Readable, Arena.Valid, Keeps, Seen, IsFull, EvictedOver, Spared, OneGone, ChargeOf;
    went, held := 0, [Holding(t.model, t.arena.blocks)];
    EvictedNone(held[0], key, t.ctrl.Length, budget);
    KeepsItself(t.Map());
    ChargedIs(t);
    var more := true;
    while more && t.ChargedBytes() > budget && went < MOST
      invariant t.Valid() && t.ctrl == old(t.ctrl) && t.slots == old(t.slots)
      invariant Keeps(old(t.Map()), t.Map()) && |old(t.Map())| == |t.Map()| + went && went <= MOST
      invariant EvictedOver(held, went, key, t.ctrl.Length, budget) && |held| == went + 1
      invariant held[0] == Holding(old(t.model), old(t.arena.blocks)) && held[went] == Holding(t.model, t.arena.blocks)
      invariant t.ChargedBytes() == ChargeOf(held[went], t.ctrl.Length)
      invariant Spared(t, spare, key) && (spare.None? ==> key !in t.model)
      invariant !more ==> t.Map().Keys <= {key}
      invariant NONE !in old(t.arena.blocks) ==>
          t.ChargedBytes() + went <= old(t.ChargedBytes()) && NONE !in t.arena.blocks
      decreases MOST - went, more
    {
      more := EvictStep(t, sampler(went), spare, key, old(t.Map()));
      ChargedIs(t);
      if more {
        ghost var now := Holding(t.model, t.arena.blocks);
        EvictedOneMore(held, went, key, t.ctrl.Length, budget, now);
        went, held := went + 1, held + [now];
      } else {
        OnlySpared(t, spare, key);
      }
    }
  }

  /** One eviction: one other entry goes, or there is none to take. */
  method EvictStep(t: Table, picks: (nat, nat), spare: Option<nat>, key: Key, ghost first: map<Key, Parts>)
    returns (did: bool)
    requires t.Valid() && Keeps(first, t.Map()) && Spared(t, spare, key) && (spare.None? ==> key !in t.model)
    modifies t, t.ctrl, t.slots, t.arena
    ensures t.Valid() && t.ctrl == old(t.ctrl) && t.slots == old(t.slots)
    ensures Keeps(first, t.Map()) && Spared(t, spare, key) && (spare.None? ==> key !in t.model)
    ensures did ==> |t.Map()| == |old(t.Map())| - 1
    ensures did ==> OneGone(Holding(old(t.model), old(t.arena.blocks)), Holding(t.model, t.arena.blocks), key)
    ensures !did ==> t.model == old(t.model) && t.arena.blocks == old(t.arena.blocks)
    ensures !did ==> forall i: nat :: FullAt(t.ctrl[..], i) ==> spare == Some(i)
    ensures NONE !in old(t.arena.blocks) ==>
        t.ChargedBytes() + (if did then 1 else 0) <= old(t.ChargedBytes()) && NONE !in t.arena.blocks
  {
    hide Table.Readable, Arena.Valid, Keeps, Seen, Evicted, IsFull, Spells;
    ghost var was, blocks := t.Shape().ix, t.arena.blocks;
    WhatATableSpells(t);
    did := t.EvictOne(picks.0, picks.1, spare);
    if did {
      ghost var a: nat, b: nat :| Nearest(was.ctrl, picks.0, spare, a) && Nearest(was.ctrl, picks.1, spare, b)
                                  && Evicted(was, t.Shape().ix, Sooner(was.ents, a, b))
                                  && t.arena.blocks == Without(blocks, RefAt(was.ents, Sooner(was.ents, a, b)));
      ghost var victim := Sooner(was.ents, a, b);
      OneFewer(was, t.Shape().ix, victim, first);
      StillSpared(was, t.Shape().ix, victim, spare, key);
      ItIsGone(was, blocks, t.Shape().ix, t.arena.blocks, victim, spare, key);
    } else {
      NoneLeft(was, t.ctrl[..], spare);
    }
  }

  lemma ItIsGone(was: Ix, blocks: ArenaLayout.Blocks, now: Ix, left: ArenaLayout.Blocks, victim: nat,
                 spare: Option<nat>, key: Key)
    requires |was.ents| == |was.ctrl| && Spells(was) && Evicted(was, now, victim) && spare != Some(victim)
    requires left == Without(blocks, RefAt(was.ents, victim))
    requires spare.Some? ==> FullAt(was.ctrl, spare.value) && was.ents[spare.value].parts.key == key
    requires spare.None? ==> key !in was.model
    ensures OneGone(Holding(was.model, blocks), Holding(now.model, left), key)
    ensures spare.None? ==> key !in now.model
  {
    hide IsFull;
    var k := was.ents[victim].parts.key;
    assert k in was.model && was.model[k] == was.ents[victim];
    assert k != key;
  }

  lemma NoneLeft(was: Ix, ctrl: seq<bv8>, spare: Option<nat>)
    requires !exists i: nat :: FullAt(was.ctrl, i) && spare != Some(i)
    ensures forall i: nat :: FullAt(was.ctrl, i) ==> spare == Some(i)
  {
  }

  /** The slot spared still holds the key it was spared for. */
  ghost predicate Spared(t: Table, spare: Option<nat>, key: Key)
    reads t, t.ctrl
  {
    spare.Some? ==> FullAt(t.ctrl[..], spare.value) && spare.value < |t.ents| && t.ents[spare.value].parts.key == key
  }

  lemma KeepsItself(m: map<Key, Parts>)
    ensures Keeps(m, m)
  {
  }

  lemma OneFewer(was: Ix, now: Ix, victim: nat, first: map<Key, Parts>)
    requires |was.ents| == |was.ctrl| && Spells(was) && Evicted(was, now, victim)
    requires Keeps(first, Seen(was.model))
    ensures Keeps(first, Seen(now.model)) && |Seen(now.model)| == |Seen(was.model)| - 1
  {
    hide IsFull;
    SeenSize(was.model);
    SeenSize(now.model);
    SeenErase(was.model, was.ents[victim].parts.key);
  }

  lemma StillSpared(was: Ix, now: Ix, victim: nat, spare: Option<nat>, key: Key)
    requires |was.ents| == |was.ctrl| && Evicted(was, now, victim) && spare != Some(victim)
    requires spare.Some? ==> FullAt(was.ctrl, spare.value) && was.ents[spare.value].parts.key == key
    ensures |now.ctrl| == |was.ctrl| && now.ents == was.ents
    ensures spare.Some? ==> FullAt(now.ctrl, spare.value) && now.ents[spare.value].parts.key == key
  {
    hide IsFull;
  }

  lemma OnlySpared(t: Table, spare: Option<nat>, key: Key)
    requires t.Readable() && Spared(t, spare, key)
    requires forall i: nat :: FullAt(t.ctrl[..], i) ==> spare == Some(i)
    ensures t.Map().Keys <= {key}
  {
    hide Stored, Counted, Bounded, Placed, IsFull;
    SeenKeys(t.model);
    forall k | k in t.model
      ensures k == key
    {
      var i: nat :| HoldsKey(t.Shape().ix, i, k);
    }
  }

  lemma KeyIsSpared(t: Table, spare: Option<nat>, key: Key)
    requires t.Readable() && Spared(t, spare, key)
    ensures spare.Some? ==> key in t.Map()
  {
    hide Stored, Counted, Bounded, Placed, IsFull;
    SeenKeys(t.model);
  }

  // ---------------------------------------------------------------------------------------------
  // Writes
  // ---------------------------------------------------------------------------------------------

  /** A write of `p` that evicts to fit: `p` is there, and what else is there was there before. */
  ghost predicate Written(was: map<Key, Parts>, now: map<Key, Parts>, p: Parts)
  {
    EvictedFor(was[p.key := p], now, p.key) && p.key in now && now[p.key] == p
  }

  lemma EvictedIsWritten(was: map<Key, Parts>, now: map<Key, Parts>, p: Parts)
    requires EvictedFor(was[p.key := p], now, p.key)
    ensures Written(was, now, p)
  {
  }

  /** A write of `p` over `held` takes a block and there is none to be had. */
  ghost predicate Denied(held: map<Key, Parts>, p: Parts, stock: ArenaLayout.Supply, granted: bool)
  {
    (p.key in held ==> SizeOfParts(held[p.key]) != SizeOfParts(p)) && ArenaLayout.Denies(stock, SizeOfParts(p), granted)
  }

  /** Store an entry, then evict to fit. */
  method Store(t: Table, p: Parts, h: u64, budget: nat, sampler: nat -> (nat, nat), granted: bool)
    returns (r: Result<Wrote, ArenaLayout.Full>)
    requires t.Valid() && h == t.hash(p.key) && Entry.Fits(p)
    modifies t, t.ctrl, t.slots, t.arena
    ensures (t.ctrl == old(t.ctrl) || fresh(t.ctrl)) && (t.slots == old(t.slots) || fresh(t.slots))
    ensures r.Ok? ==> t.Valid() && Written(old(t.Map()), t.Map(), p)
    ensures r.Ok? ==> (r.value == WroteNew <==> p.key !in old(t.Map()))
    ensures r.Ok? && budget == 0 ==> t.Map() == old(t.Map())[p.key := p]
    ensures r.Err? <==> old(t.NeedsBlock(p)) && ArenaLayout.Denies(old(t.arena.Stock()), SizeOfParts(p), granted)
    ensures r.Err? ==> t.Map() == old(t.Map()) && t.Refused(SizeOfParts(p), old(t.arena.Room()))
  {
    hide Table.Readable, Arena.Valid, EvictedFor, Table.Refused, SizeOfParts, Seen;
    SeenKeys(t.model);
    r := t.Set(p.key, p.value, h, p.expiry, p.flags, granted);
    if r.Ok? {
      var went, held := EvictToFit(t, budget, p.key, h, sampler);
      EvictedIsWritten(old(t.Map()), t.Map(), p);
    }
  }

  /** `SET` with a condition on the key's presence and a rule for its expiry, under one lock. */
  method SetWhen(t: Table, key: Key, value: seq<byte>, when: When, deadline: Deadline, flags: Option<u32>,
                 h: u64, now: u32, budget: nat, sampler: nat -> (nat, nat), granted: bool)
    returns (r: Result<Option<Wrote>, ArenaLayout.Full>)
    requires t.Valid() && h == t.hash(key) && |key| < LENGTH_LIMIT && |value| < LENGTH_LIMIT
    modifies t, t.ctrl, t.slots, t.arena
    ensures (t.ctrl == old(t.ctrl) || fresh(t.ctrl)) && (t.slots == old(t.slots) || fresh(t.slots))
    ensures var held := Swept(old(t.Map()), key, now);
            && (r == Ok(None) <==> (when == Absent && key in held) || (when == Present && key !in held))
            && (r == Ok(None) ==> t.Valid() && t.Map() == held)
            && (r.Ok? && r.value.Some? ==>
                t.Valid() && Written(held, t.Map(), Parts(key, value, Chosen(held, key, deadline), flags)))
            && (r.Ok? && r.value.Some? && budget == 0 ==>
                t.Map() == held[key := Parts(key, value, Chosen(held, key, deadline), flags)])
            && (r.Err? <==>
                 && !((when == Absent && key in held) || (when == Present && key !in held))
                 && Denied(held, Parts(key, value, Chosen(held, key, deadline), flags), old(t.StockPast(key, now)),
                     granted))
            && (r.Err? ==> t.Map() == held && t.Readable())
    ensures r == Ok(None) <==>
            (when == Absent && Live(old(t.Map()), key, now)) || (when == Present && !Live(old(t.Map()), key, now))
    ensures r.Ok? && r.value.Some? ==>
            key in t.Map() &&
            var was, written := old(t.Map()), t.Map()[key];
            && written.value == value && written.flags == flags && (r.value == Some(WroteNew) <==> !Live(was, key, now))
            && (deadline.At? ==> written.expiry == Some(deadline.when))
            && (deadline.Never? ==> written.expiry == None)
            && (deadline.Keep? ==> written.expiry == if Live(was, key, now) then was[key].expiry else None)
  {
    hide Table.Readable, Arena.Valid, Table.Refused, Written, Swept, Seen;
    LiveIsHeld(t.Map(), key, now);
    var view := t.View(key, h, now);
    if (when == Absent && view.Some?) || (when == Present && view.None?) {
      return Ok(None);
    }
    var expiry := match deadline
      case At(at) => Some(at)
      case Never => None
      case Keep => if view.Some? then view.value.expiry else None;
    ghost var room := t.arena.Room();
    var wrote := Store(t, Parts(key, value, expiry, flags), h, budget, sampler, granted);
    if wrote.Err? {
      WhenRefused(t, SizeOfParts(Parts(key, value, expiry, flags)), room);
      return Err(wrote.error);
    }
    WrittenIsThere(Swept(old(t.Map()), key, now), t.Map(), Parts(key, value, expiry, flags));
    return Ok(Some(wrote.value));
  }

  /** `key` is there at `now`: it has no expiry, or one still to come. */
  ghost predicate Live(m: map<Key, Parts>, key: Key, now: int)
  {
    key in m && (m[key].expiry.Some? ==> now < m[key].expiry.value)
  }

  lemma LiveIsHeld(m: map<Key, Parts>, key: Key, now: u32)
    ensures key in Swept(m, key, now) <==> Live(m, key, now)
    ensures key in Swept(m, key, now) ==> Swept(m, key, now)[key] == m[key]
  {
  }

  lemma WrittenIsThere(was: map<Key, Parts>, now: map<Key, Parts>, p: Parts)
    requires Written(was, now, p)
    ensures p.key in now && now[p.key] == p
  {
  }

  /** What a write's expiry rule comes to, given what the key holds. */
  ghost function Chosen(held: map<Key, Parts>, key: Key, deadline: Deadline): Option<u32>
  {
    match deadline
    case At(at) => Some(at)
    case Never => None
    case Keep => if key in held then held[key].expiry else None
  }

  lemma WhenRefused(t: Table, size: nat, room: nat)
    requires t.Refused(size, room)
    ensures t.Readable()
  {
  }

  /** What an increment starts from: what the key holds, or nought with no trailer. */
  ghost function Counter(held: map<Key, Parts>, key: Key): Parts
  {
    if key in held then held[key] else Parts(key, [Decimal.ZERO], None, None)
  }

  /** An increment starts from the number a live key holds, and from nought otherwise; what it writes keeps a live key's
      expiry and flags, and has neither otherwise. */
  lemma IncrementKeeps(was: map<Key, Parts>, key: Key, now: u32, sum: Decimal.i64, left: map<Key, Parts>)
    requires key in was ==> was[key].key == key
    requires
      var held := Swept(was, key, now); Written(held, left, Counter(held, key).(value := Decimal.Spell(sum)))
    ensures key in left && left[key].value == Decimal.Spell(sum)
    ensures Live(was, key, now) ==> left[key].expiry == was[key].expiry && left[key].flags == was[key].flags
    ensures !Live(was, key, now) ==> left[key].expiry == None && left[key].flags == None
    ensures Decimal.Strict(Counter(Swept(was, key, now), key).value) ==
      if Live(was, key, now) then Decimal.Strict(was[key].value) else Some(0)
  {
    hide Decimal.Strict, Decimal.Spell;
    LiveIsHeld(was, key, now);
    NoughtIsStrict();
  }

  /** Add `delta` to the integer under `key`, reading and writing under one lock. */
  method Increment(t: Table, key: Key, delta: Decimal.i64, h: u64, now: u32, budget: nat, sampler: nat -> (nat, nat),
                   granted: bool)
    returns (r: Result<int, Uncounted>)
    requires t.Valid() && h == t.hash(key) && |key| < LENGTH_LIMIT
    modifies t, t.ctrl, t.slots, t.arena
    ensures (t.ctrl == old(t.ctrl) || fresh(t.ctrl)) && (t.slots == old(t.slots) || fresh(t.slots))
    ensures var held := Swept(old(t.Map()), key, now);
            var start := Decimal.Strict(Counter(held, key).value);
            && (r == Err(NotANumber) <==> start.None?)
            && (r == Err(OutOfRange) <==> start.Some? && !(Decimal.MIN <= start.value + delta <= Decimal.MAX))
            && (r == Err(OutOfMemory) <==>
                 && start.Some? && Decimal.MIN <= start.value + delta <= Decimal.MAX
                 && Denied(held, Counter(held, key).(value := Decimal.Spell(start.value + delta)),
                     old(t.StockPast(key, now)), granted))
            && (r.Ok? ==> start.Some? && r.value == start.value + delta && t.Valid())
            && (r.Ok? ==> Written(held, t.Map(), Counter(held, key).(value := Decimal.Spell(r.value))))
            && (r.Ok? ==> Decimal.Strict(t.Map()[key].value) == Some(r.value))
            && (r.Ok? && budget == 0 ==> t.Map() == held[key := Counter(held, key).(value := Decimal.Spell(r.value))])
            && (r.Err? ==> t.Map() == held && t.Readable())
  {
    hide Table.Readable, Arena.Valid, Table.Refused, EvictedFor, Swept, Seen, Decimal.Strict, Decimal.Spell;
    ViewKeys(t);
    var view := t.View(key, h, now);
    ViewKeys(t);
    NoughtIsStrict();
    var current := 0;
    if view.Some? {
      var read := Decimal.ReadStrict(view.value.value);
      if read.None? {
        return Err(NotANumber);
      }
      current := read.value;
    }
    var next := current + delta;
    if next < Decimal.MIN || next > Decimal.MAX {
      return Err(OutOfRange);
    }
    var text := Decimal.Print(next);
    Decimal.StrictOfSpell(next);
    Decimal.SpellLength(next);
    var p := if view.Some? then view.value.(key := key, value := text) else Parts(key, text, None, None);
    ghost var room := t.arena.Room();
    var wrote := Store(t, p, h, budget, sampler, granted);
    if wrote.Err? {
      WhenRefused(t, SizeOfParts(p), room);
      return Err(OutOfMemory);
    }
    return Ok(next);
  }

  lemma NoughtIsStrict()
    ensures Decimal.Strict([Decimal.ZERO]) == Some(0)
  {
    Decimal.StrictOfSpell(0);
  }

  /** Every entry a table shows is shown under its own key. */
  lemma ViewKeys(t: Table)
    requires t.Readable()
    ensures forall k :: k in t.Map() ==> t.Map()[k].key == k
  {
    hide Consistent, Arena.Readable, Behind;
  }
}
