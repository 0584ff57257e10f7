/** Increments on a map shared by threads: the section an increment runs, and what it tells its caller. */
module Counting {
  import opened Bytes
  import opened Entry
  import opened Index
  import opened TableModel
  import Decimal
  import Shard
  import Sharded

  /** What an increment carries: nothing yet, what it read, then its answer. */
  datatype Carried = Nothing | Read(from: Parts) | Told(key: Key, delta: int, answer: Result<int, Shard.Uncounted>)

  /** What a caller was told was added to `key`. */
  ghost function AddedTo(key: Key): Carried -> int
  {
    (told: Carried) => if told.Told? && told.key == key && told.answer.Ok? then told.delta else 0
  }

  /** The answer an increment owes to what it read, when `denied` says whether there is a block for a write. */
  ghost function Answer(m: map<Key, Parts>, from: Parts, delta: int, denied: Refusal): Result<int, Shard.Uncounted>
  {
    var start := Decimal.Strict(from.value);
    if start.None? then Err(Shard.NotANumber)
    else if !(Decimal.MIN <= start.value + delta <= Decimal.MAX) then Err(Shard.OutOfRange)
    else if denied(m, from.(value := Decimal.Spell(start.value + delta))) then Err(Shard.OutOfMemory)
    else Ok(start.value + delta)
  }

  /** Whether the shard has no block for a write, and what evicting to fit leaves of it. */
  type Refusal = (map<Key, Parts>, Parts) -> bool
  type Eviction = map<Key, Parts> -> map<Key, Parts>

  type State = (map<Key, Parts>, Carried)

  /** The read, which takes an expired entry away. */
  ghost function Looked(s: State, key: Key, now: u32): State
  {
    var held := Swept(s.0, key, now);
    (held, Read(Shard.Counter(held, key)))
  }

  /** The write, unless it is refused. */
  ghost function Wrote(s: State, key: Key, delta: int, denied: Refusal): State
  {
    if !s.1.Read? then s
    else
      var answer := Answer(s.0, s.1.from, delta, denied);
      if answer.Err? then (s.0, Told(key, delta, answer))
      else (s.0[key := s.1.from.(value := Decimal.Spell(answer.value))], Told(key, delta, answer))
  }

  /** Evicting to fit, after a write. */
  ghost function Fitted(s: State, evict: Eviction): State
  {
    if s.1.Told? && s.1.answer.Ok? then (evict(s.0), s.1) else s
  }

  /** An increment's steps. Another thread's may fall between any two. */
  ghost function Body(key: Key, delta: int, now: u32, denied: Refusal, evict: Eviction)
    : seq<(map<Key, Parts>, Carried) -> (map<Key, Parts>, Carried)>
  {
    [(m: map<Key, Parts>, l: Carried) => Looked((m, l), key, now),
     (m: map<Key, Parts>, l: Carried) => Wrote((m, l), key, delta, denied),
     (m: map<Key, Parts>, l: Carried) => Fitted((m, l), evict)]
  }

  lemma BodyAlone(key: Key, delta: int, now: u32, denied: Refusal, evict: Eviction, m: map<Key, Parts>)
    ensures Sharded.Alone(Body(key, delta, now, denied, evict), m, Nothing)
         == Fitted(Wrote(Looked((m, Nothing), key, now), key, delta, denied), evict)
  {
    hide Looked, Wrote, Fitted;
    var body := Body(key, delta, now, denied, evict);
    assert body[..3] == body;
    Sharded.AloneMore(body, 2, m, Nothing);
    Sharded.AloneMore(body, 1, m, Nothing);
    Sharded.AloneMore(body, 0, m, Nothing);
    assert body[..0] == [];
  }

  ghost function Section(shard: nat, key: Key, delta: int, now: u32, denied: Refusal, evict: Eviction)
    : Sharded.Op<map<Key, Parts>, Carried>
  {
    Sharded.Op(shard, Nothing, Body(key, delta, now, denied, evict), true, None)
  }

  /** Evicting spares `key` and takes no more than an eviction may. */
  ghost predicate Evicts(evict: Eviction, key: Key)
  {
    forall m: map<Key, Parts> :: Shard.EvictedFor(m, evict(m), key)
  }

  /** Run alone, the section is an increment of a shard: same entries, same answer. */
  lemma SectionIsIncrement(key: Key, delta: int, now: u32, denied: Refusal, evict: Eviction, m: map<Key, Parts>)
    requires Evicts(evict, key)
    ensures
      var held := Swept(m, key, now);
      var r := Sharded.Alone(Body(key, delta, now, denied, evict), m, Nothing);
      var from := Shard.Counter(held, key);
      var start := Decimal.Strict(from.value);
      && r.1.Told? && r.1.key == key && r.1.delta == delta
      && (r.1.answer == Err(Shard.NotANumber) <==> start.None?)
      && (r.1.answer == Err(Shard.OutOfRange) <==> start.Some? && !(Decimal.MIN <= start.value + delta <= Decimal.MAX))
      && (r.1.answer == Err(Shard.OutOfMemory) <==>
           && start.Some? && Decimal.MIN <= start.value + delta <= Decimal.MAX
           && denied(held, from.(value := Decimal.Spell(start.value + delta))))
      && (r.1.answer.Ok? ==> start.Some? && r.1.answer.value == start.value + delta)
      && (r.1.answer.Ok? ==> r.0 == evict(held[key := from.(value := Decimal.Spell(r.1.answer.value))]))
      && (r.1.answer.Err? ==> r.0 == held)
  {
    hide Decimal.Strict, Decimal.Spell, Swept, Shard.Counter, Evicts, Body, Sharded.Alone;
    BodyAlone(key, delta, now, denied, evict, m);
  }

  /** What a successful increment leaves under its own key and under one its evicting spares. */
  lemma WhatEvictingLeaves(was: map<Key, Parts>, about: Key, p: Parts, evict: Eviction, key: Key)
    requires Evicts(evict, about) && SparesKey(evict, key)
    ensures var now := evict(was[about := p]);
            && about in now && now[about] == p
            && (key != about ==> (key in now <==> key in was) && (key in was ==> now[key] == was[key]))
  {
    var m := was[about := p];
    assert Shard.EvictedFor(m, evict(m), about);
    assert key in m ==> key in evict(m);
  }

  /** A shard whose `key` never expires and, if there, counts. */
  ghost predicate Counts(m: map<Key, Parts>, key: Key)
  {
    key in m ==> m[key].expiry.None? && Decimal.Strict(m[key].value).Some?
  }

  ghost function CountOf(m: map<Key, Parts>, key: Key): int
  {
    if Counts(m, key) && key in m then Decimal.Strict(m[key].value).value else 0
  }

  /** Any increment, of `key` or of another whose evicting does not take `key`, moves `key`'s count by what it says it
      added to `key`. */
  lemma IncrementIsHonest(shard: nat, key: Key, about: Key, delta: int, now: u32, denied: Refusal, evict: Eviction)
    requires Evicts(evict, about) && SparesKey(evict, key)
    ensures Sharded.Honest(Section(shard, about, delta, now, denied, evict), m => Counts(m, key), m => CountOf(m, key),
        AddedTo(key))
  {
    hide Evicts, Body, Decimal.Strict, Decimal.Spell, SparesKey, Counts, CountOf, AddedTo;
    forall m: map<Key, Parts> | Counts(m, key)
      ensures
        var r := Sharded.Alone(Body(about, delta, now, denied, evict), m, Nothing);
        Counts(r.0, key) && CountOf(r.0, key) == CountOf(m, key) + AddedTo(key)(r.1)
    {
      OneIncrement(key, about, delta, now, denied, evict, m);
    }
  }

  lemma OneIncrement(key: Key, about: Key, delta: int, now: u32, denied: Refusal, evict: Eviction, m: map<Key, Parts>)
    requires Evicts(evict, about) && SparesKey(evict, key) && Counts(m, key)
    ensures
      var r := Sharded.Alone(Body(about, delta, now, denied, evict), m, Nothing);
      Counts(r.0, key) && CountOf(r.0, key) == CountOf(m, key) + AddedTo(key)(r.1)
  {
    hide Evicts, SparesKey, Body, Decimal.Strict, Decimal.Spell;
    SectionIsIncrement(about, delta, now, denied, evict, m);
    Shard.NoughtIsStrict();
    var held := Swept(m, about, now);
    var told := Sharded.Alone(Body(about, delta, now, denied, evict), m, Nothing).1;
    if told.answer.Ok? {
      var p := Shard.Counter(held, about).(value := Decimal.Spell(told.answer.value));
      Decimal.StrictOfSpell(told.answer.value);
      WhatEvictingLeaves(held, about, p, evict, key);
    }
  }

  /** Evicting never takes `key`. */
  ghost predicate SparesKey(evict: Eviction, key: Key)
  {
    forall m: map<Key, Parts> :: key in m ==> key in evict(m)
  }

  /** A section that leaves `key` as it finds it and answers for no addition to it. */
  ghost predicate Spares(op: Sharded.Op<map<Key, Parts>, Carried>, key: Key)
  {
    forall m: map<Key, Parts> ::
      var r := Sharded.Alone(op.body, m, op.start);
      (key in r.0 <==> key in m) && (key in m ==> r.0[key] == m[key]) && AddedTo(key)(r.1) == 0
  }

  /** Looking a key up, which takes it away if it has expired. */
  ghost function Look(shard: nat, about: Key, now: u32): Sharded.Op<map<Key, Parts>, Carried>
  {
    Sharded.Op(shard, Nothing,
      [(m: map<Key, Parts>, l: Carried) =>
         var held := Swept(m, about, now);
         (held, if about in held then Read(held[about]) else Nothing)],
      true, None)
  }

  /** Writing an entry, and removing one. */
  ghost function Put(shard: nat, p: Parts): Sharded.Op<map<Key, Parts>, Carried>
  {
    Sharded.Op(shard, Nothing, [(m: map<Key, Parts>, l: Carried) => (m[p.key := p], l)], true, None)
  }

  ghost function Take(shard: nat, about: Key): Sharded.Op<map<Key, Parts>, Carried>
  {
    Sharded.Op(shard, Nothing, [(m: map<Key, Parts>, l: Carried) => (m - {about}, l)], true, None)
  }

  lemma OneStep(op: Sharded.Op<map<Key, Parts>, Carried>, m: map<Key, Parts>)
    requires |op.body| == 1
    ensures Sharded.Alone(op.body, m, op.start) == op.body[0](m, op.start)
  {
    assert op.body[..1] == op.body;
    Sharded.AloneMore(op.body, 0, m, op.start);
    assert op.body[..0] == [];
  }

  /** Whatever is done to other keys spares this one. */
  lemma OthersSpare(shard: nat, key: Key, p: Parts, about: Key, now: u32)
    requires p.key != key && about != key
    ensures Spares(Look(shard, about, now), key) && Spares(Put(shard, p), key) && Spares(Take(shard, about), key)
  {
    hide Expired;
    forall m: map<Key, Parts>
      ensures Sharded.Alone(Look(shard, about, now).body, m, Nothing) == Look(shard, about, now).body[0](m, Nothing)
      ensures Sharded.Alone(Put(shard, p).body, m, Nothing) == Put(shard, p).body[0](m, Nothing)
      ensures Sharded.Alone(Take(shard, about).body, m, Nothing) == Take(shard, about).body[0](m, Nothing)
    {
      OneStep(Look(shard, about, now), m);
      OneStep(Put(shard, p), m);
      OneStep(Take(shard, about), m);
    }
  }

  lemma SparingIsHonest(op: Sharded.Op<map<Key, Parts>, Carried>, key: Key)
    requires Spares(op, key)
    ensures Sharded.Honest(op, m => Counts(m, key), m => CountOf(m, key), AddedTo(key))
  {
    hide Decimal.Strict, AddedTo;
    forall m: map<Key, Parts> | Counts(m, key)
      ensures
        var r := Sharded.Alone(op.body, m, op.start);
        Counts(r.0, key) && CountOf(r.0, key) == CountOf(m, key) + AddedTo(key)(r.1)
    {
      var r := Sharded.Alone(op.body, m, op.start);
      assert (key in r.0 <==> key in m) && AddedTo(key)(r.1) == 0;
    }
  }

  /** Any threads, in any order, incrementing keys of a shard, some refused for memory and some evicting others, and
      doing what they like to its other keys: what a key that is not itself evicted ends up counting is what it counted
      and all that was answered for. */
  lemma IncrementsAddUp(first: Sharded.World<map<Key, Parts>, Carried>, actions: seq<Sharded.Action<map<Key, Parts>,
                        Carried>>,
                        last: Sharded.World<map<Key, Parts>, Carried>, i: nat, key: Key, measure: map<Key,
                          Parts> -> Sharded.Gauges)
    requires Sharded.Fresh(first, measure) && Sharded.Reaches(first, actions, last, measure)
    requires i < |last.shards| == |first.shards| && !last.shards[i].held && Counts(first.shards[i].table, key)
    requires forall k :: 0 <= k < |last.history| && last.history[k].op.shard == i ==>
               IsIncrement(last.history[k].op, key) || Spares(last.history[k].op, key)
    ensures CountOf(last.shards[i].table, key)
         == CountOf(first.shards[i].table, key) + Sharded.Added(last.history, i, AddedTo(key))
  {
    hide Sharded.Fresh, Sharded.Reaches, Counts, CountOf, Section, Sharded.Honest, Sharded.Added, Spares, Evicts,
      SparesKey;
    forall k | 0 <= k < |last.history| && last.history[k].op.shard == i
      ensures Sharded.Honest(last.history[k].op, m => Counts(m, key), m => CountOf(m, key), AddedTo(key))
    {
      var op := last.history[k].op;
      if Spares(op, key) {
        SparingIsHonest(op, key);
      } else {
        var about: Key, delta: int, now: u32, denied: Refusal, evict: Eviction :|
          op == Section(op.shard, about, delta, now, denied, evict) && Evicts(evict, about) && SparesKey(evict, key);
        IncrementIsHonest(i, key, about, delta, now, denied, evict);
      }
    }
    Sharded.NoIncrementIsLost(first, actions, last, i, measure, m => Counts(m, key), m => CountOf(m, key),
        AddedTo(key));
  }

  /** An increment, of whatever key, whose evicting does not take `key`. */
  ghost predicate IsIncrement(op: Sharded.Op<map<Key, Parts>, Carried>, key: Key)
  {
    exists about: Key, delta: int, now: u32, denied: Refusal, evict: Eviction ::
      op == Section(op.shard, about, delta, now, denied, evict) && Evicts(evict, about) && SparesKey(evict, key)
  }
}
