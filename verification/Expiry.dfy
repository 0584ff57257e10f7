/** What time does to a table's entries, said of the clock and the expiry alone. */
module Expiry {
  import opened Bytes
  import opened Entry
  import opened Group
  import opened Index
  import Probe
  import opened TableModel
  import opened Runs

  /** An entry at `now`: one with no expiry stays, and one with an expiry stays until it. */
  predicate InForce(p: Parts, now: int)
  {
    match p.expiry
    case None => true
    case Some(when) => now < when
  }

  /** A read of one key. */
  predicate Reads(op: Op) { op.Get? || op.View? || op.Contains? }

  /** What a read that finds `p` answers, and what one that finds nothing does. */
  ghost function Found(op: Op, p: Parts): Answer
    requires Reads(op)
  {
    match op
    case Get(_, _) => Value(Some(p.value))
    case View(_, _) => Entry(Some(p))
    case _ => Said(true)
  }

  ghost function Missing(op: Op): Answer
    requires Reads(op)
  {
    match op
    case Get(_, _) => Value(None)
    case View(_, _) => Entry(None)
    case _ => Said(false)
  }

  /** Until an entry expires every read returns it and leaves it; from then on every read finds nothing and takes it
      away; and a read of a key that is not there finds nothing and takes nothing. */
  lemma ReadAtTime(was: Ix, timed: nat, op: Op, answer: Answer, now: Ix)
    requires Reads(op) && Does(was, timed, op, answer, now)
    ensures var before, after := Seen(was.model), Seen(now.model);
            && (op.key in before && InForce(before[op.key], op.now) ==>
                  answer == Found(op, before[op.key]) && after == before)
            && (op.key in before && !InForce(before[op.key], op.now) ==>
                  answer == Missing(op) && after == before - {op.key})
            && (op.key !in before ==> answer == Missing(op) && after == before)
  {
    hide Seen;
  }

  /** What is written is read back until it expires and never after. */
  lemma WrittenThenRead(s: seq<Ix>, timed: seq<nat>, p: Parts, granted: bool, read: Op, wrote: Answer, answer: Answer)
    requires |s| == 3 && |timed| == 2 && Reads(read) && read.key == p.key
    requires Does(s[0], timed[0], Op.Set(p, granted), wrote, s[1]) && Does(s[1], timed[1], read, answer, s[2])
    ensures if InForce(p, read.now) then answer == Found(read, p) && Seen(s[2].model) == Seen(s[0].model)[p.key := p]
            else answer == Missing(read) && Seen(s[2].model) == Seen(s[0].model) - {p.key}
  {
    hide Seen;
    ReadAtTime(s[1], timed[1], read, answer, s[2]);
  }

  /** A key can be given another expiry until it expires; from then on it is taken away and reported absent. */
  lemma ExpireAtTime(was: Ix, timed: nat, op: Op, answer: Answer, now: Ix)
    requires op.Expire? && Does(was, timed, op, answer, now)
    ensures var before, after := Seen(was.model), Seen(now.model);
            && (op.key in before && InForce(before[op.key], op.now) ==>
                  answer == Said(true) && after == before[op.key := before[op.key].(expiry := op.expiry)])
            && (op.key in before && !InForce(before[op.key], op.now) ==>
                  answer == Said(false) && after == before - {op.key})
            && (op.key !in before ==> answer == Said(false) && after == before)
  {
    hide Seen;
  }

  /** The `k`-th slot of a walk from `from` that wraps. */
  function Visit(from: nat, k: nat, capacity: nat): nat
    requires capacity > 0
  {
    (from + k) % capacity
  }

  /** Slot `i` is among the first `n` of a walk from `from` that wraps once. */
  ghost predicate Walked(i: nat, from: nat, n: nat, capacity: nat)
    requires capacity > 0
  {
    exists k: nat :: k < n && k < capacity && i == Visit(from, k, capacity)
  }

  /** A sweep takes an entry exactly when it walks past its slot and the entry has expired; one with no expiry is
      never taken. */
  lemma SweepAtTime(was: Ix, timed: nat, op: Op, answer: Answer, now: Ix, key: Key, i: nat)
    requires op.Sweep? && Does(was, timed, op, answer, now)
    requires |was.ents| == |was.ctrl| && Spells(was) && HoldsKey(was, i, key)
    ensures key in now.model <==> !(Walked(i, op.from, op.budget, |was.ctrl|) && !InForce(was.model[key].parts, op.now))
    ensures key in now.model ==> now.model[key] == was.model[key]
  {
    hide IsFull;
    WalkedIsNear(i, op.from, op.budget, |was.ctrl|);
    if FullAt(now.ctrl, i) {
      assert HoldsKey(now, i, key);
    } else {
      NoOther(was, now, i, key);
    }
  }

  lemma NoOther(was: Ix, now: Ix, i: nat, key: Key)
    requires |was.ents| == |was.ctrl| && Spells(was) && HoldsKey(was, i, key)
    requires now.ents == was.ents && |now.ctrl| == |was.ctrl|
    requires !FullAt(now.ctrl, i) && forall j: nat :: FullAt(now.ctrl, j) ==> FullAt(was.ctrl, j)
    ensures forall j: nat :: !HoldsKey(now, j, key)
  {
    hide IsFull;
  }

  lemma WalkedIsNear(i: nat, from: nat, n: nat, capacity: nat)
    requires i < capacity
    ensures Walked(i, from, n, capacity) <==> Offset(i, from, capacity) < Least(n, capacity)
  {
    hide Offset, Visit;
    OffsetBound(i, from, capacity);
    var k := Offset(i, from, capacity);
    VisitIs(i, from, k, capacity);
    if Walked(i, from, n, capacity) {
      var j: nat :| j < n && j < capacity && i == Visit(from, j, capacity);
      VisitIs(i, from, j, capacity);
    }
  }

  lemma VisitIs(i: nat, from: nat, n: nat, capacity: nat)
    requires i < capacity && n < capacity
    ensures Offset(i, from, capacity) == n <==> i == Visit(from, n, capacity)
  {
    hide Offset;
    OffsetIs(i, from, n, capacity);
  }

  /** An eviction takes the first of the two entries drawn unless the second expires sooner, where one with no expiry
      counts as expiring at the last second there is. */
  lemma EvictsTheSooner(was: Ix, timed: nat, op: Op, answer: Answer, now: Ix) returns (a: nat, b: nat)
    requires op.EvictOne? && Does(was, timed, op, answer, now) && answer == Said(true)
    requires |was.ents| == |was.ctrl|
    ensures Nearest(was.ctrl, op.once, op.spare, a) && Nearest(was.ctrl, op.twice, op.spare, b)
    ensures
      var first, second := was.ents[a].parts, was.ents[b].parts;
      var sooner :=
        && second.expiry.Some?
        && (if first.expiry.Some? then second.expiry.value < first.expiry.value else second.expiry.value < 0xFFFF_FFFF);
      Evicted(was, now, if sooner then b else a)
  {
    hide Seen, Evicted, IsFull;
    a, b :| Nearest(was.ctrl, op.once, op.spare, a) && Nearest(was.ctrl, op.twice, op.spare, b)
            && Evicted(was, now, Sooner(was.ents, a, b));
  }
}
