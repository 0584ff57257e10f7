/** Any run of a table's operations, as what it does to the finite map the table stands for. */
module Runs {
  import opened Bytes
  import opened Entry
  import opened Group
  import opened Index
  import ArenaLayout
  import opened ArenaModel
  import opened TableModel

  /** One operation and what it is given; `granted` is whether a segment asked for would be had. */
  datatype Op =
    | Set(parts: Parts, granted: bool)
    | Get(key: Key, now: u32)
    | View(key: Key, now: u32)
    | Contains(key: Key, now: u32)
    | Remove(key: Key)
    | Expire(key: Key, expiry: Option<u32>, now: u32, granted: bool)
    | Sweep(from: nat, budget: nat, now: u32)
    | EvictOne(once: nat, twice: nat, spare: Option<nat>)
    | Shrink
    | Clear

  /** What an operation tells its caller. */
  datatype Answer =
    | Wrote(wrote: Wrote)
    | Value(value: Option<seq<byte>>)
    | Entry(parts: Option<Parts>)
    | Said(yes: bool)
    | Visited(next: nat, removed: nat)
    | Done

  function Looked(m: map<Key, Parts>, key: Key): Option<Parts>
  {
    if key in m then Some(m[key]) else None
  }

  /** What an operation that is not refused does, and what it tells: on the map, and where it goes by slots, on the
      index the map is kept in. */
  ghost predicate Does(was: Ix, timed: nat, op: Op, answer: Answer, now: Ix)
  {
    var before, after := Seen(was.model), Seen(now.model);
    match op
    case Set(p, _) => after == before[p.key := p] && answer == Wrote(if p.key in before then WroteOver else WroteNew)
    case Get(key, time) =>
      after == Swept(before, key, time) && answer == Value(if key in after then Some(after[key].value) else None)
    case View(key, time) => after == Swept(before, key, time) && answer == Entry(Looked(after, key))
    case Contains(key, time) => after == Swept(before, key, time) && answer == Said(key in after)
    case Remove(key) => after == before - {key} && answer == Said(key in before)
    case Expire(key, expiry, time, _) =>
      && answer == Said(key in Swept(before, key, time))
      && after == if key in Swept(before, key, time) then before[key := before[key].(expiry := expiry)]
                  else Swept(before, key, time)
    case Sweep(from, budget, time) =>
      && SweptBetween(was, now, from, budget, time)
      && answer.Visited? && |before| == |after| + answer.removed
      && answer.next == ResumeAt(timed, from, budget, |was.ctrl|)
    case EvictOne(once, twice, spare) =>
      && answer == Said(exists i: nat :: FullAt(was.ctrl, i) && spare != Some(i))
      && (answer == Said(false) ==> now.ctrl == was.ctrl && now.model == was.model)
      && (answer == Said(true) ==> exists a: nat, b: nat ::
            Nearest(was.ctrl, once, spare, a) && Nearest(was.ctrl, twice, spare, b)
                && Evicted(was, now, Sooner(was.ents, a, b)))
    case Shrink =>
      && now.model == was.model
      && answer == Said(MIN_CAPACITY < |was.ctrl| && Shrunk(|was.model|) < |was.ctrl|)
      && |now.ctrl| == if answer.yes then Shrunk(|was.model|) else |was.ctrl|
    case Clear => now.model == map[] && |now.ctrl| == |was.ctrl| && answer == Done
  }

  ghost predicate Allowed(op: Op)
  {
    op.Set? ==> Entry.Fits(op.parts)
  }

  /** The block an operation would have to take, if it takes one: the bytes of an entry that is new or changes size. */
  ghost function Takes(m: map<Key, Parts>, op: Op): Option<nat>
  {
    match op
    case Set(p, _) => if p.key in m && SizeOfParts(m[p.key]) == SizeOfParts(p) then None else Some(SizeOfParts(p))
    case Expire(key, expiry, time, _) =>
      if key in Swept(m, key, time) && m[key].expiry.Some? != expiry.Some? then
        Some(SizeOfParts(m[key].(expiry := expiry)))
      else None
    case _ => None
  }

  /** An operation is refused: it takes a block, and there is none to be had. */
  ghost predicate Refuses(m: map<Key, Parts>, op: Op, stock: ArenaLayout.Supply)
  {
    Takes(m, op).Some? && ArenaLayout.Denies(stock, Takes(m, op).value, op.granted)
  }

  /** Run operations in turn until one is refused. Each before that does to the map what it should and answers as
      it should; the run stops only at one that takes a block when there is none to be had, and then nothing
      stored has changed and everything is in order still unless a segment's tail was found uncut. */
  method Run(t: Table, ops: seq<Op>)
    returns (ghost states: seq<Ix>, ghost timed: seq<nat>, answers: seq<Answer>, n: nat)
    requires t.Valid() && forall i :: 0 <= i < |ops| ==> Allowed(ops[i])
    modifies t, t.ctrl, t.slots, t.arena
    ensures n <= |ops| && InTurn(states, timed, ops, answers, n) && AllIndexed(states, t.width, t.hash)
    ensures states[0] == old(t.Shape().ix) && timed[0] == old(t.timed) && Seen(states[n].model) == t.Map()
    ensures t.Readable() && (n == |ops| ==> t.Valid() && states[n] == t.Shape().ix)
    ensures n < |ops| ==> Refuses(t.Map(), ops[n], t.arena.Stock())
    ensures n < |ops| ==>
        (t.Valid() <==> ArenaLayout.ClassOf(Takes(t.Map(), ops[n]).value).None? || t.arena.Room() == 0)
    ensures old(t.peak) == old(t.len) ==> NoneOutgrown(states)
  {
    hide Table.Readable, Arena.Valid, InTurn, Seen, Allowed, Refuses, Takes, AllIndexed, NoneOutgrown, Peak, Does;
    states, timed, answers, n := [t.Shape().ix], [t.timed], [], 0;
    Started(t, ops);
    while n < |ops|
      invariant t.Valid() && (t.ctrl == old(t.ctrl) || fresh(t.ctrl)) && (t.slots == old(t.slots) || fresh(t.slots))
      invariant n <= |ops| && |states| == |timed| == n + 1 && |answers| == n
      invariant InTurn(states, timed, ops, answers, n) && AllIndexed(states, t.width, t.hash)
      invariant states[0] == old(t.Shape().ix) && timed[0] == old(t.timed)
      invariant states[n] == t.Shape().ix && timed[n] == t.timed
      invariant old(t.peak) == old(t.len) ==> t.peak == Peak(states) && NoneOutgrown(states)
    {
      var answer := RunOne(t, ops[n]);
      if answer.None? {
        return;
      }
      OneMoreInTurn(states, timed, ops, answers, n, t.Shape().ix, t.timed, answer.value);
      OneMoreInOrder(t, states);
      states, timed, answers := states + [t.Shape().ix], timed + [t.timed], answers + [answer.value];
      n := n + 1;
    }
  }

  /** The first `n` operations, each from one state to the next with its answer. */
  ghost predicate InTurn(states: seq<Ix>, timed: seq<nat>, ops: seq<Op>, answers: seq<Answer>, n: nat)
  {
    && |states| == |timed| == n + 1 && |answers| == n <= |ops|
    && forall i :: 0 <= i < n ==> Does(states[i], timed[i], ops[i], answers[i], states[i + 1])
  }

  ghost predicate AllIndexed(states: seq<Ix>, width: Width, hash: Key -> u64)
  {
    forall i :: 0 <= i < |states| ==> Indexed(states[i], width, hash)
  }

  /** No state's index has outgrown what was held up to it. */
  ghost predicate NoneOutgrown(states: seq<Ix>)
  {
    forall i :: 0 <= i < |states| ==> NotOutgrown(states, i)
  }

  lemma OneMoreInTurn(states: seq<Ix>, timed: seq<nat>, ops: seq<Op>, answers: seq<Answer>, n: nat,
                      now: Ix, left: nat, answer: Answer)
    requires InTurn(states, timed, ops, answers, n) && n < |ops| && Does(states[n], timed[n], ops[n], answer, now)
    ensures InTurn(states + [now], timed + [left], ops, answers + [answer], n + 1)
  {
    hide Does;
    var more, counts, told := states + [now], timed + [left], answers + [answer];
    forall i | 0 <= i < n + 1
      ensures Does(more[i], counts[i], ops[i], told[i], more[i + 1])
    {
      assert more[i] == states[i] && counts[i] == timed[i];
      assert i < n ==> more[i + 1] == states[i + 1] && told[i] == answers[i];
    }
  }

  lemma Started(t: Table, ops: seq<Op>)
    requires t.Readable()
    ensures InTurn([t.Shape().ix], [t.timed], ops, [], 0) && AllIndexed([t.Shape().ix], t.width, t.hash)
    ensures t.peak == t.len ==> t.peak == Peak([t.Shape().ix]) && NoneOutgrown([t.Shape().ix])
  {
    hide Table.Readable, Indexed, NotOutgrown, Peak;
    InOrder(t);
    LenIsSize(t);
    PeakFirst(t.Shape().ix);
    BoundedNow(t, [t.Shape().ix]);
  }

  lemma OneMoreInOrder(t: Table, states: seq<Ix>)
    requires t.Readable() && AllIndexed(states, t.width, t.hash)
    ensures AllIndexed(states + [t.Shape().ix], t.width, t.hash)
    ensures Peak(states + [t.Shape().ix]) == Most(Peak(states), |t.model|)
    ensures NoneOutgrown(states) && t.peak == Most(Peak(states), |t.model|) ==> NoneOutgrown(states + [t.Shape().ix])
  {
    hide Table.Readable, Indexed, NotOutgrown, Peak;
    InOrder(t);
    PeakNext(states, t.Shape().ix);
    BoundedStill(states, t.Shape().ix);
    BoundedNow(t, states + [t.Shape().ix]);
  }

  /** The most entries any of some states holds. */
  ghost function Peak(states: seq<Ix>): nat
  {
    if states == [] then 0 else Most(Peak(states[..|states| - 1]), |states[|states| - 1].model|)
  }

  /** The index of the `i`-th state is the smallest there is, or under 32/7 slots for each of the entries of some state
      up to it. */
  ghost predicate NotOutgrown(states: seq<Ix>, i: nat)
  {
    i < |states| && (|states[i].ctrl| <= MIN_CAPACITY || exists j ::
        0 <= j <= i && 7 * |states[i].ctrl| < 32 * |states[j].model|)
  }

  lemma PeakFirst(first: Ix)
    ensures Peak([first]) == |first.model|
  {
    assert [first][..0] == [];
  }

  lemma PeakNext(states: seq<Ix>, next: Ix)
    ensures Peak(states + [next]) == Most(Peak(states), |next.model|)
  {
    assert (states + [next])[..|states|] == states;
  }

  lemma {:induction false} PeakIsReached(states: seq<Ix>)
    ensures states != [] ==> exists j :: 0 <= j < |states| && Peak(states) == |states[j].model|
    decreases |states|
  {
    if states != [] {
      var n := |states| - 1;
      var most := states[..n];
      PeakIsReached(most);
      if Peak(most) > |states[n].model| {
        var j :| 0 <= j < |most| && Peak(most) == |most[j].model|;
        assert states[j] == most[j];
      } else {
        assert Peak(states) == |states[n].model|;
      }
    }
  }

  lemma BoundedStill(states: seq<Ix>, next: Ix)
    ensures forall i :: 0 <= i < |states| && NotOutgrown(states, i) ==> NotOutgrown(states + [next], i)
  {
    forall i | 0 <= i < |states| && NotOutgrown(states, i)
      ensures NotOutgrown(states + [next], i)
    {
      if |states[i].ctrl| > MIN_CAPACITY {
        var j :| 0 <= j <= i && 7 * |states[i].ctrl| < 32 * |states[j].model|;
        assert (states + [next])[j] == states[j];
      }
    }
  }

  /** The bound the table keeps on its most entries, as one on the states it has been through. */
  lemma BoundedNow(t: Table, states: seq<Ix>)
    requires t.Readable() && states != [] && states[|states| - 1] == t.Shape().ix
    ensures t.peak == Peak(states) ==> NotOutgrown(states, |states| - 1)
  {
    hide Table.Readable, Peak;
    t.Counters();
    PeakIsReached(states);
  }

  lemma WithinPeak(t: Table)
    requires t.Readable()
    ensures t.len == |t.model| <= t.peak
  {
    hide Table.Readable;
    t.Counters();
  }

  lemma InOrder(t: Table)
    requires t.Readable()
    ensures Indexed(t.Shape().ix, t.width, t.hash)
  {
    hide Indexed, Stored;
  }

  /** One operation: refused exactly when it takes a block and there is none to be had. */
  method RunOne(t: Table, op: Op) returns (answer: Option<Answer>)
    requires t.Valid() && Allowed(op)
    modifies t, t.ctrl, t.slots, t.arena
    ensures (t.ctrl == old(t.ctrl) || fresh(t.ctrl)) && (t.slots == old(t.slots) || fresh(t.slots)) && t.Readable()
    ensures answer.None? <==> Refuses(old(t.Map()), op, old(t.arena.Stock()))
    ensures answer.Some? ==> t.Valid() && Does(old(t.Shape().ix), old(t.timed), op, answer.value, t.Shape().ix)
    ensures answer.None? ==> t.Map() == old(t.Map()) && Refuses(t.Map(), op, t.arena.Stock())
    ensures t.peak == if answer.Some? then Most(old(t.peak), |t.model|) else old(t.peak)
    ensures answer.None? ==> (t.Valid() <==> ArenaLayout.ClassOf(Takes(t.Map(), op).value).None? || t.arena.Room() == 0)
  {
    hide Table.Readable, Arena.Valid, Seen, Does, SizeOfParts, Entry.Fits;
    match op {
      case Set(p, granted) => answer := RunSet(t, p, granted);
      case Expire(key, expiry, now, granted) => answer := RunExpire(t, key, expiry, now, granted);
      case Sweep(_, _, _) => answer := RunWalk(t, op);
      case EvictOne(_, _, _) => answer := RunWalk(t, op);
      case Shrink => answer := RunWalk(t, op);
      case Clear => answer := RunWalk(t, op);
      case _ => answer := RunLook(t, op);
    }
  }

  /** The operations that look for one key and take no block. */
  method RunLook(t: Table, op: Op) returns (answer: Option<Answer>)
    requires t.Valid() && (op.Get? || op.View? || op.Contains? || op.Remove?)
    modifies t, t.ctrl, t.slots, t.arena
    ensures t.ctrl == old(t.ctrl) && t.slots == old(t.slots) && t.Valid()
    ensures answer.Some? && Does(old(t.Shape().ix), old(t.timed), op, answer.value, t.Shape().ix)
    ensures t.peak == Most(old(t.peak), |t.model|)
  {
    hide Table.Readable, Arena.Valid, Seen, Swept;
    match op {
      case Get(key, now) =>
        var r := t.Get(key, t.hash(key), now);
        answer := Some(Value(r));
      case View(key, now) =>
        var r := t.View(key, t.hash(key), now);
        answer := Some(Entry(r));
      case Contains(key, now) =>
        var r := t.Contains(key, t.hash(key), now);
        answer := Some(Said(r));
      case Remove(key) =>
        var r := t.Remove(key, t.hash(key));
        answer := Some(Said(r));
    }
    WithinPeak(t);
  }

  /** The operations that walk the slots. */
  method RunWalk(t: Table, op: Op) returns (answer: Option<Answer>)
    requires t.Valid() && (op.Sweep? || op.EvictOne? || op.Shrink? || op.Clear?)
    modifies t, t.ctrl, t.slots, t.arena
    ensures (t.ctrl == old(t.ctrl) || fresh(t.ctrl)) && (t.slots == old(t.slots) || fresh(t.slots)) && t.Valid()
    ensures answer.Some? && Does(old(t.Shape().ix), old(t.timed), op, answer.value, t.Shape().ix)
    ensures t.peak == Most(old(t.peak), |t.model|)
  {
    hide Table.Readable, Arena.Valid, Seen, Does;
    WithinPeak(t);
    if op.Sweep? {
      answer := RunSweep(t, op.from, op.budget, op.now);
    } else if op.EvictOne? {
      answer := RunEvict(t, op.once, op.twice, op.spare);
    } else {
      answer := RunResize(t, op);
    }
    WithinPeak(t);
  }

  method RunSweep(t: Table, from: nat, budget: nat, now: u32) returns (answer: Option<Answer>)
    requires t.Valid()
    modifies t, t.ctrl, t.slots, t.arena
    ensures t.ctrl == old(t.ctrl) && t.slots == old(t.slots) && t.Valid() && t.peak == old(t.peak)
    ensures answer.Some? && Does(old(t.Shape().ix), old(t.timed), Sweep(from, budget, now), answer.value, t.Shape().ix)
  {
    hide Table.Readable, Arena.Valid, Seen, SweptBetween;
    LenIsSize(t);
    var next, removed := t.Sweep(from, budget, now);
    LenIsSize(t);
    answer := Some(Visited(next, removed));
  }

  method RunEvict(t: Table, once: nat, twice: nat, spare: Option<nat>) returns (answer: Option<Answer>)
    requires t.Valid()
    modifies t, t.ctrl, t.slots, t.arena
    ensures t.ctrl == old(t.ctrl) && t.slots == old(t.slots) && t.Valid() && t.peak == old(t.peak)
    ensures answer.Some?
        && Does(old(t.Shape().ix), old(t.timed), EvictOne(once, twice, spare), answer.value, t.Shape().ix)
  {
    hide Table.Readable, Arena.Valid, Seen, Evicted, FullAt, Nearest;
    var did := t.EvictOne(once, twice, spare);
    answer := Some(Said(did));
  }

  method RunResize(t: Table, op: Op) returns (answer: Option<Answer>)
    requires t.Valid() && (op.Shrink? || op.Clear?)
    modifies t, t.ctrl, t.slots, t.arena
    ensures (t.ctrl == old(t.ctrl) || fresh(t.ctrl)) && (t.slots == old(t.slots) || fresh(t.slots)) && t.Valid()
    ensures answer.Some? && Does(old(t.Shape().ix), old(t.timed), op, answer.value, t.Shape().ix)
    ensures t.peak == old(t.peak)
  {
    hide Table.Readable, Arena.Valid, Seen, RebuiltAs;
    LenIsSize(t);
    if op.Shrink? {
      var did := t.Shrink();
      answer := Some(Said(did));
    } else {
      t.Clear();
      answer := Some(Done);
    }
  }

  method RunSet(t: Table, p: Parts, granted: bool) returns (answer: Option<Answer>)
    requires t.Valid() && Entry.Fits(p)
    modifies t, t.ctrl, t.slots, t.arena
    ensures (t.ctrl == old(t.ctrl) || fresh(t.ctrl)) && (t.slots == old(t.slots) || fresh(t.slots)) && t.Readable()
    ensures answer.None? <==> Refuses(old(t.Map()), Set(p, granted), old(t.arena.Stock()))
    ensures answer.Some? ==>
        t.Valid() && Does(old(t.Shape().ix), old(t.timed), Set(p, granted), answer.value, t.Shape().ix)
    ensures answer.None? ==> t.Map() == old(t.Map()) && Refuses(t.Map(), Set(p, granted), t.arena.Stock())
    ensures t.peak == if answer.Some? then Most(old(t.peak), |t.model|) else old(t.peak)
    ensures answer.None? ==>
        (t.Valid() <==> ArenaLayout.ClassOf(Takes(t.Map(), Set(p, granted)).value).None? || t.arena.Room() == 0)
  {
    hide Table.Readable, Arena.Valid, Seen, SizeOfParts, Entry.Fits;
    SeenKeys(t.model);
    var r := t.Set(p.key, p.value, t.hash(p.key), p.expiry, p.flags, granted);
    WithinPeak(t);
    answer := if r.Ok? then Some(Wrote(r.value)) else None;
  }

  method RunExpire(t: Table, key: Key, expiry: Option<u32>, now: u32, granted: bool) returns (answer: Option<Answer>)
    requires t.Valid()
    modifies t, t.ctrl, t.slots, t.arena
    ensures (t.ctrl == old(t.ctrl) || fresh(t.ctrl)) && (t.slots == old(t.slots) || fresh(t.slots)) && t.Readable()
    ensures answer.None? <==> Refuses(old(t.Map()), Expire(key, expiry, now, granted), old(t.arena.Stock()))
    ensures answer.Some? ==>
        t.Valid() && Does(old(t.Shape().ix), old(t.timed), Expire(key, expiry, now, granted), answer.value,
            t.Shape().ix)
    ensures answer.None? ==>
        t.Map() == old(t.Map()) && Refuses(t.Map(), Expire(key, expiry, now, granted), t.arena.Stock())
    ensures t.peak == if answer.Some? then Most(old(t.peak), |t.model|) else old(t.peak)
    ensures answer.None? ==>
        (t.Valid() <==>
          ArenaLayout.ClassOf(Takes(t.Map(), Expire(key, expiry, now, granted)).value).None? || t.arena.Room() == 0)
  {
    hide Table.Readable, Arena.Valid, Seen, SizeOfParts;
    var r := t.Expire(key, t.hash(key), expiry, now, granted);
    WithinPeak(t);
    answer := if r.Ok? then Some(Said(r.value)) else None;
  }
}
