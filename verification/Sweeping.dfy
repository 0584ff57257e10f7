/** Background sweeps of a shard, one after another, and what becomes of what has expired. */
module Sweeping {
  import opened Bytes
  import opened Entry
  import opened Group
  import opened Index
  import Probe
  import ArenaLayout
  import opened ArenaModel
  import opened TableModel
  import opened Shard

  /** Only what had expired is gone, and what is left is as it was. */
  ghost predicate OnlyExpiredWent(was: map<Key, Parts>, now: map<Key, Parts>, time: u32)
  {
    Keeps(was, now) && forall k :: k in was && k !in now ==> Expired(was[k], time)
  }

  lemma OnlyExpiredTwice(a: map<Key, Parts>, b: map<Key, Parts>, c: map<Key, Parts>, time: u32)
    requires OnlyExpiredWent(a, b, time) && OnlyExpiredWent(b, c, time)
    ensures OnlyExpiredWent(a, c, time)
  {
    hide Expired;
  }

  /** No full slot holds anything that has expired. */
  ghost predicate Quiet(ix: Ix, time: u32)
  {
    forall i: nat :: FullAt(ix.ctrl, i) && i < |ix.ents| ==> !Expired(ix.ents[i].parts, time)
  }

  /** A sweep takes nothing that has not expired and changes nothing it leaves. */
  lemma SweepKeeps(was: Ix, now: Ix, from: nat, budget: nat, time: u32)
    requires SweptBetween(was, now, from, budget, time) && |was.ents| == |was.ctrl| && Spells(was)
    ensures OnlyExpiredWent(Seen(was.model), Seen(now.model), time)
  {
    hide IsFull, Offset, Expired;
    forall k | k in was.model && k !in now.model
      ensures Expired(was.model[k].parts, time)
    {
      var i: nat :| HoldsKey(was, i, k);
      assert HoldsKey(now, i, k) <==> FullAt(now.ctrl, i);
    }
  }

  /** One background sweep of a shard: a walk, then the index given back if anything went. */
  method SweepOnce(t: Table, from: nat, budget: nat, now: u32)
    returns (next: nat, removed: nat, rebuilt: bool, ghost swept: Ix)
    requires t.Valid()
    modifies t, t.ctrl, t.slots, t.arena
    ensures t.Valid() && (t.ctrl == old(t.ctrl) || fresh(t.ctrl)) && (t.slots == old(t.slots) || fresh(t.slots))
    ensures SweptBetween(old(t.Shape().ix), swept, from, budget, now) && t.model == swept.model
    ensures |old(t.Map())| == |t.Map()| + removed && OnlyExpiredWent(old(t.Map()), t.Map(), now)
    ensures rebuilt <==> removed > 0 && MIN_CAPACITY < old(t.ctrl.Length) && Shrunk(|t.Map()|) < old(t.ctrl.Length)
    ensures rebuilt ==> fresh(t.ctrl) && fresh(t.slots) && t.ctrl.Length == Shrunk(|t.Map()|)
    ensures rebuilt ==> RebuiltAs(swept, t.Shape().ix, t.ctrl.Length, t.width, t.hash)
    ensures !rebuilt ==> t.ctrl == old(t.ctrl) && t.slots == old(t.slots) && t.Shape().ix == swept
    ensures next == ResumeAt(old(t.timed), from, budget, old(t.ctrl.Length))
  {
    hide Table.Readable, Arena.Valid, Seen, SweptBetween, OnlyExpiredWent, RebuiltAs;
    LenIsSize(t);
    WhatATableSpells(t);
    ghost var was := t.Shape().ix;
    next, removed := t.Sweep(from, budget, now);
    LenIsSize(t);
    swept, rebuilt := t.Shape().ix, false;
    SweepKeeps(was, swept, from, budget, now);
    if removed > 0 {
      rebuilt := t.Shrink();
    }
  }

  /** How far a run of sweeps has come since the index was last rebuilt: from `base`, `covered` slots on from
      `start`, with the next at `at`; or there is nothing left that has expired. */
  ghost predicate Along(base: Ix, now: Ix, start: nat, covered: nat, at: nat, time: u32)
  {
    || Quiet(now, time)
    || (&& |base.ctrl| > 0
        && SweptTo(base, now, start, Least(covered, |base.ctrl|), time)
        && at % |base.ctrl| == (start + covered) % |base.ctrl|)
  }

  lemma AlongStarts(ix: Ix, at: nat, time: u32)
    requires |ix.ents| == |ix.ctrl|
    ensures Along(ix, ix, at, 0, at, time)
  {
    if |ix.ctrl| > 0 {
      SweptStart(ix, at, time);
    }
  }

  /** Where a sweep starts matters only up to going round. */
  lemma SweptFrom(was: Ix, now: Ix, from: nat, same: nat, n: nat, time: u32)
    requires |was.ctrl| > 0 && SweptTo(was, now, from, n, time) && from % |was.ctrl| == same % |was.ctrl|
    ensures SweptTo(was, now, same, n, time)
  {
    hide FullAt, Expired;
    forall i: nat | i < |was.ctrl|
      ensures Offset(i, from, |was.ctrl|) == Offset(i, same, |was.ctrl|)
    {
    }
  }

  lemma AlongMore(base: Ix, was: Ix, now: Ix, start: nat, covered: nat, at: nat, budget: nat, next: nat, timed: nat,
                  time: u32)
    requires Along(base, was, start, covered, at, time) && |was.ents| == |was.ctrl| == |base.ctrl|
    requires SweptBetween(was, now, at, budget, time)
    requires timed == 0 ==> Quiet(was, time)
    requires timed > 0 && |was.ctrl| > 0 ==> next == (at + Least(budget, |was.ctrl|)) % |was.ctrl|
    ensures Along(base, now, start, covered + Least(budget, |was.ctrl|), next, time)
  {
    hide FullAt, Expired, Offset;
    var capacity, n := |was.ctrl|, Least(budget, |was.ctrl|);
    if Quiet(was, time) {
      QuietStays(was, now, at, n, time);
    } else {
      if covered < capacity {
        SweptFrom(was, now, at, start + covered, n, time);
        SweepsCompose(base, was, now, start, covered, n, time);
      } else {
        SweptAll(base, was, now, start, at, n, time);
      }
      Probe.ModPlus(at, n, capacity);
      Probe.ModPlus(start + covered, n, capacity);
      Probe.Remainder((at + n) % capacity, capacity, 0, (at + n) % capacity);
    }
  }

  lemma QuietStays(was: Ix, now: Ix, from: nat, n: nat, time: u32)
    requires Quiet(was, time) && SweptTo(was, now, from, n, time)
    ensures Quiet(now, time)
  {
    hide Expired, Offset, IsFull;
  }

  lemma AlongEnds(base: Ix, now: Ix, start: nat, covered: nat, at: nat, time: u32)
    requires Along(base, now, start, covered, at, time) && covered >= |base.ctrl|
    ensures Quiet(now, time)
  {
    hide Expired, IsFull;
    if !Quiet(now, time) {
      forall i: nat | FullAt(now.ctrl, i) && i < |now.ents|
        ensures !Expired(now.ents[i].parts, time)
      {
        OffsetBound(i, start, |base.ctrl|);
      }
    }
  }

  lemma QuietMap(ix: Ix, time: u32)
    requires Quiet(ix, time) && |ix.ents| == |ix.ctrl| && Spells(ix)
    ensures forall k :: k in Seen(ix.model) ==> !Expired(Seen(ix.model)[k], time)
  {
    hide Expired, IsFull;
    forall k | k in ix.model
      ensures !Expired(ix.model[k].parts, time)
    {
      var i: nat :| HoldsKey(ix, i, k);
    }
  }

  lemma TimelessIsQuiet(t: Table, time: u32)
    requires t.Readable() && t.timed == 0
    ensures Quiet(t.Shape().ix, time)
  {
    hide Indexed, Stored, Bounded, IsFull, Count, Are, Fulls, Arena.Readable;
    ConsistentSizes(t.Shape(), t.width, t.hash);
    CountZero(Timeds(t.ctrl[..], t.ents));
    forall i: nat | FullAt(t.ctrl[..], i) && i < |t.ents|
      ensures !Expired(t.ents[i].parts, time)
    {
      assert !Timeds(t.ctrl[..], t.ents)[i];
    }
  }

  /** A map with nothing expired in it is in an index with nothing expired in it. */
  lemma MapIsQuiet(ix: Ix, time: u32)
    requires |ix.ents| == |ix.ctrl| && Spells(ix) && forall k ::
        k in Seen(ix.model) ==> !Expired(Seen(ix.model)[k], time)
    ensures Quiet(ix, time)
  {
    hide Expired, IsFull;
    forall i: nat | FullAt(ix.ctrl, i) && i < |ix.ents|
      ensures !Expired(ix.ents[i].parts, time)
    {
      assert ix.ents[i].parts.key in Seen(ix.model);
    }
  }

  /** Capacities are powers of two, so a smaller one is half at most. */
  lemma HalfAtMost(t: Table, was: nat)
    requires t.Readable() && IsCapacity(was) && 0 < t.ctrl.Length < was
    ensures 2 * t.ctrl.Length <= was
  {
    hide Stored, Arena.Readable, Counted, Bounded, Spells, Placed;
    var i: nat :| Probe.Pow2(i) == t.ctrl.Length;
    var j: nat :| Probe.Pow2(j) == was;
    PowersApart(i, j);
  }

  lemma {:induction false} PowersApart(i: nat, j: nat)
    requires Probe.Pow2(i) < Probe.Pow2(j)
    ensures 2 * Probe.Pow2(i) <= Probe.Pow2(j)
  {
    if j > 0 {
      if i >= j {
        PowersRise(j, i);
      } else {
        PowersRise(i, j - 1);
      }
    }
  }

  /** A shrink asks for the least capacity that would be at most half full. */
  lemma ShrunkIsLeast(len: nat)
    ensures IsCapacity(Shrunk(len)) && Shrunk(len) > 0 && 2 * len <= Shrunk(len)
    ensures forall n: nat :: IsCapacity(n) && n > 0 && 2 * len <= n ==> Shrunk(len) <= n
  {
    SixteenIsCapacity();
    Probe.NextPow2IsPow2(1, 2 * len);
    var p := Probe.NextPow2(1, 2 * len);
    forall n: nat | IsCapacity(n) && n > 0 && 2 * len <= n
      ensures p <= n
    {
      var i: nat :| Probe.Pow2(i) == n;
      var j: nat :| Probe.Pow2(j) == p;
      if n < p {
        PowersApart(i, j);
      }
    }
  }

  lemma {:induction false} PowersRise(i: nat, j: nat)
    requires i <= j
    ensures Probe.Pow2(i) <= Probe.Pow2(j)
    decreases j
  {
    if i < j {
      PowersRise(i, j - 1);
    }
  }

  lemma IsACapacity(t: Table)
    requires t.Readable()
    ensures IsCapacity(t.ctrl.Length) && (t.ctrl.Length == 0 || t.ctrl.Length >= MIN_CAPACITY)
  {
    hide Stored, Arena.Readable, Counted, Bounded, Spells, Placed;
  }

  lemma NoSlotsAreQuiet(ix: Ix, time: u32)
    requires ix.ctrl == []
    ensures Quiet(ix, time)
  {
  }

  /** One round of the run below: where it leaves the base it counts from, and what it has covered since. */
  method SweepRound(t: Table, from: nat, budget: nat, now: u32, ghost base: Ix, ghost start: nat, ghost covered: nat)
    returns (next: nat, removed: nat, ghost base2: Ix, ghost start2: nat, ghost covered2: nat)
    requires t.Valid() && |base.ctrl| == t.ctrl.Length && Along(base, t.Shape().ix, start, covered, from, now)
    modifies t, t.ctrl, t.slots, t.arena
    ensures t.Valid() && (t.ctrl == old(t.ctrl) || fresh(t.ctrl)) && (t.slots == old(t.slots) || fresh(t.slots))
    ensures OnlyExpiredWent(old(t.Map()), t.Map(), now) && |old(t.Map())| == |t.Map()| + removed
    ensures |base2.ctrl| == t.ctrl.Length && Along(base2, t.Shape().ix, start2, covered2, next, now)
    ensures Quiet(old(t.Shape().ix), now) ==> Quiet(t.Shape().ix, now)
    ensures t.ctrl.Length <= old(t.ctrl.Length)
    ensures t.ctrl.Length == old(t.ctrl.Length) ==> covered2 == covered + Least(budget, t.ctrl.Length)
    ensures t.ctrl.Length < old(t.ctrl.Length) ==>
              && 2 * t.ctrl.Length <= old(t.ctrl.Length) && covered2 == 0
              && (Quiet(t.Shape().ix, now) || covered + Least(budget, old(t.ctrl.Length)) < old(t.ctrl.Length))
  {
    hide Table.Readable, Arena.Valid, Seen, SweptBetween, OnlyExpiredWent, Along, Quiet, Spells, RebuiltAs, IsCapacity;
    WhatATableSpells(t);
    IsACapacity(t);
    ghost var was, timed, length := t.Shape().ix, t.timed, t.ctrl.Length;
    if t.timed == 0 {
      TimelessIsQuiet(t, now);
    }
    var rebuilt;
    ghost var swept;
    next, removed, rebuilt, swept := SweepOnce(t, from, budget, now);
    AlongMore(base, was, swept, start, covered, from, budget, next, timed, now);
    WhatATableSpells(t);
    if covered + Least(budget, length) >= length {
      AlongEnds(base, swept, start, covered + Least(budget, length), next, now);
    } else if Quiet(was, now) {
      SweptStaysQuiet(was, swept, from, budget, now);
    }
    if Quiet(swept, now) {
      SweptSpells(was, swept, from, budget, now);
      QuietMap(swept, now);
      MapIsQuiet(t.Shape().ix, now);
    }
    if rebuilt {
      base2, start2, covered2 := t.Shape().ix, next, 0;
      AlongStarts(base2, next, now);
      ShrunkIsSome(|t.Map()|);
      HalfAtMost(t, length);
    } else {
      base2, start2, covered2 := base, start, covered + Least(budget, length);
    }
  }

  lemma SweptStaysQuiet(was: Ix, now: Ix, from: nat, budget: nat, time: u32)
    requires Quiet(was, time) && SweptBetween(was, now, from, budget, time)
    ensures Quiet(now, time)
  {
    hide Quiet, SweptTo;
    QuietStays(was, now, from, Least(budget, |was.ctrl|), time);
  }

  /** A round of no more than one sweep is worth at least what it would be on the smallest index. */
  lemma LeastBounds(budget: nat, length: nat)
    ensures length >= MIN_CAPACITY ==> Least(budget, MIN_CAPACITY) <= Least(budget, length)
  {
  }

  lemma ShrunkIsSome(len: nat)
    ensures Shrunk(len) > 0
  {
  }

  lemma SweptSpells(was: Ix, now: Ix, from: nat, budget: nat, time: u32)
    requires SweptBetween(was, now, from, budget, time) && |was.ents| == |was.ctrl| && Spells(was)
    ensures |now.ents| == |now.ctrl| && Spells(now)
  {
    hide IsFull, Offset, Expired;
    forall i: nat | FullAt(now.ctrl, i)
      ensures now.ents[i].parts.key in now.model && now.model[now.ents[i].parts.key] == now.ents[i]
    {
      assert HoldsKey(now, i, now.ents[i].parts.key);
    }
  }

  /** How many rounds have been worth `b` slots each, against how many slots there have been to cover. */
  ghost predicate Paced(work: nat, length: nat, first: nat, covered: nat)
  {
    work + 6 * length <= 6 * first + 2 * covered
  }

  /** Background sweeps one after another, each from where the last left off, the index given back between them.
      Nothing that has not expired ever goes. Nothing that has expired is left once every slot has been visited with
      no rebuild between; and whatever is rebuilt between, once six times the slots there were have been. */
  method SweepOnAndOn(t: Table, from: nat, budget: nat, rounds: nat, now: u32) returns (next: nat, removed: nat)
    requires t.Valid()
    modifies t, t.ctrl, t.slots, t.arena
    ensures t.Valid() && OnlyExpiredWent(old(t.Map()), t.Map(), now) && |old(t.Map())| == |t.Map()| + removed
    ensures t.ctrl.Length <= old(t.ctrl.Length)
    ensures t.ctrl.Length == old(t.ctrl.Length) && Least(budget, t.ctrl.Length) * rounds >= t.ctrl.Length ==>
              forall k :: k in t.Map() ==> !Expired(t.Map()[k], now)
    ensures Least(budget, MIN_CAPACITY) * rounds >= 6 * old(t.ctrl.Length) ==>
              forall k :: k in t.Map() ==> !Expired(t.Map()[k], now)
  {
    hide Table.Readable, Arena.Valid, Seen, SweptBetween, OnlyExpiredWent, Along, Quiet, Spells, IsCapacity, Least;
    next, removed := from, 0;
    ghost var base: Ix, start: nat, covered: nat, work: nat := t.Shape().ix, from, 0, 0;
    ghost var first, b := t.ctrl.Length, Least(budget, MIN_CAPACITY);
    WhatATableSpells(t);
    IsACapacity(t);
    AlongStarts(base, from, now);
    Unchanged(t.Map(), now);
    for n := 0 to rounds
      invariant t.Valid() && (t.ctrl == old(t.ctrl) || fresh(t.ctrl)) && (t.slots == old(t.slots) || fresh(t.slots))
      invariant OnlyExpiredWent(old(t.Map()), t.Map(), now) && |old(t.Map())| == |t.Map()| + removed
      invariant |base.ctrl| == t.ctrl.Length <= first && Along(base, t.Shape().ix, start, covered, next, now)
      invariant work == b * n && (Quiet(t.Shape().ix, now) || Paced(work, t.ctrl.Length, first, covered))
      invariant t.ctrl.Length == first ==> covered == Least(budget, first) * n
    {
      ghost var length, before := t.ctrl.Length, t.Map();
      IsACapacity(t);
      var gone;
      next, gone, base, start, covered := SweepRound(t, next, budget, now, base, start, covered);
      OnlyExpiredTwice(old(t.Map()), before, t.Map(), now);
      removed := removed + gone;
      IsACapacity(t);
      LeastBounds(budget, length);
      ArenaLayout.TimesSucc(b, n);
      ArenaLayout.TimesSucc(Least(budget, first), n);
      work := work + b;
      if length == 0 {
        NoSlotsAreQuiet(t.Shape().ix, now);
      }
    }
    WhatATableSpells(t);
    IsACapacity(t);
    if covered >= t.ctrl.Length {
      AlongEnds(base, t.Shape().ix, start, covered, next, now);
    }
    if Quiet(t.Shape().ix, now) {
      QuietMap(t.Shape().ix, now);
    }
  }

  lemma Unchanged(m: map<Key, Parts>, time: u32)
    ensures OnlyExpiredWent(m, m, time)
  {
  }
}
