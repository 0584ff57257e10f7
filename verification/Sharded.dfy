/** Threads working on a sharded map: a spin lock per shard, and counters published beside it.

    `S` is what a lock guards and `L` what a thread carries through its critical section. A body is a run of
    small steps, so that other threads' steps fall between them. */
module Sharded {
  import opened Bytes

  /** What a shard publishes for readers that take no lock. */
  datatype Gauges = Gauges(len: nat, resident: nat, charged: nat)

  /** A sweep resumes at `from`, and leaves word of where the next is to resume. */
  datatype Resume<!L> = Resume(from: nat, next: L -> nat)

  /** One critical section. A body that only looks does not publish. */
  datatype Op<!S, !L> = Op(shard: nat, start: L, body: seq<(S, L) -> (S, L)>, publishes: bool, sweep: Option<Resume<L>>)

  datatype Phase<!S, !L> =
    | Idle
    /** A sweep that has drawn its shard and not yet read where to resume. */
    | Aimed(shard: nat)
    /** About to try the lock. */
    | Trying(op: Op<S, L>, since: nat)
    /** Reading the lock until it looks free. */
    | Spinning(op: Op<S, L>, since: nat)
    /** Holding the lock with `pc` steps of the body done. */
    | Working(op: Op<S, L>, since: nat, pc: nat, local: L)
    /** Holding the lock with the body done and `stores` of the counters stored. */
    | Publishing(op: Op<S, L>, since: nat, local: L, stores: nat)

  datatype Shard<S> = Shard(held: bool, table: S, gauges: Gauges, cursor: nat)

  /** A critical section that is over: what its caller was told, and how many were over when it was asked for. */
  datatype Done<!S, !L> = Done(op: Op<S, L>, out: L, since: nat)

  datatype World<!S, !L> = World(
    threads: seq<Phase<S, L>>,
    shards: seq<Shard<S>>,
    turn: u64,
    history: seq<Done<S, L>>)

  datatype Action<!S, !L> =
    | Begin(t: nat, op: Op<S, L>)
    | Aim(t: nat)
    | BeginSweep(t: nat, op: Op<S, L>)
    | Fail(t: nat)
    | SeeFree(t: nat)
    | SeeHeld(t: nat)
    | Acquire(t: nat)
    | Work(t: nat)
    | StartPublishing(t: nat)
    | Publish(t: nat)
    | Release(t: nat)

  /** Where the count of sweeps asked for wraps. */
  const WORD := 0x1_0000_0000_0000_0000

  /** The counters, then a sweep's place to resume. */
  const STORES := 4

  // ---------------------------------------------------------------------------------------------
  // Steps
  // ---------------------------------------------------------------------------------------------

  /** A body run alone. */
  ghost function Alone<S, L>(body: seq<(S, L) -> (S, L)>, s: S, l: L): (S, L)
  {
    if body == [] then (s, l) else
      var r := Alone(body[..|body| - 1], s, l);
      body[|body| - 1](r.0, r.1)
  }

  /** A body that leaves what the lock guards alone. */
  ghost predicate OnlyLooks<S(!new), L(!new)>(body: seq<(S, L) -> (S, L)>)
  {
    forall i, s, l :: 0 <= i < |body| ==> body[i](s, l).0 == s
  }

  /** The counters after the first `stores` of them have been overwritten. */
  function Stored(was: Gauges, now: Gauges, stores: nat): Gauges
  {
    Gauges(if stores >= 1 then now.len else was.len,
           if stores >= 2 then now.resident else was.resident,
           if stores >= 3 then now.charged else was.charged)
  }

  function Resumed<S, L>(was: nat, op: Op<S, L>, local: L): nat
  {
    if op.sweep.Some? then op.sweep.value.next(local) else was
  }

  ghost predicate Enabled<S(!new), L(!new)>(w: World<S, L>, a: Action<S, L>)
  {
    a.t < |w.threads| &&
    var p := w.threads[a.t];
    match a
    case Begin(_, op) => p.Idle? && op.shard < |w.shards| && op.sweep.None? && (op.publishes || OnlyLooks(op.body))
    case Aim(_) => p.Idle? && |w.shards| > 0
    case BeginSweep(_, op) =>
      p.Aimed? && op.shard == p.shard < |w.shards| && op.publishes && op.sweep.Some?
          && op.sweep.value.from == w.shards[p.shard].cursor
    case Fail(_) => p.Trying?
    case SeeFree(_) => p.Spinning? && p.op.shard < |w.shards| && !w.shards[p.op.shard].held
    case SeeHeld(_) => p.Spinning? && p.op.shard < |w.shards| && w.shards[p.op.shard].held
    case Acquire(_) => p.Trying? && p.op.shard < |w.shards| && !w.shards[p.op.shard].held
    case Work(_) => p.Working? && p.op.shard < |w.shards| && p.pc < |p.op.body|
    case StartPublishing(_) => p.Working? && p.pc == |p.op.body| && p.op.publishes
    case Publish(_) => p.Publishing? && p.op.shard < |w.shards| && p.stores < STORES
    case Release(_) =>
      || (p.Publishing? && p.op.shard < |w.shards| && p.stores == STORES)
      || (p.Working? && p.op.shard < |w.shards| && p.pc == |p.op.body| && !p.op.publishes)
  }

  ghost function Apply<S(!new), L(!new)>(w: World<S, L>, a: Action<S, L>, measure: S -> Gauges): World<S, L>
    requires Enabled(w, a)
  {
    var p := w.threads[a.t];
    match a
    case Begin(t, op) => w.(threads := w.threads[t := Trying(op, |w.history|)])
    case Aim(t) =>
      w.(threads := w.threads[t := Aimed(w.turn % |w.shards|)], turn := if w.turn + 1 == WORD then 0 else w.turn + 1)
    case BeginSweep(t, op) => w.(threads := w.threads[t := Trying(op, |w.history|)])
    case Fail(t) => w.(threads := w.threads[t := Spinning(p.op, p.since)])
    case SeeFree(t) => w.(threads := w.threads[t := Trying(p.op, p.since)])
    case SeeHeld(t) => w
    case Acquire(t) =>
      w.(threads := w.threads[t := Working(p.op, p.since, 0, p.op.start)],
         shards := w.shards[p.op.shard := w.shards[p.op.shard].(held := true)])
    case Work(t) =>
      var r := p.op.body[p.pc](w.shards[p.op.shard].table, p.local);
      w.(threads := w.threads[t := Working(p.op, p.since, p.pc + 1, r.1)],
         shards := w.shards[p.op.shard := w.shards[p.op.shard].(table := r.0)])
    case StartPublishing(t) => w.(threads := w.threads[t := Publishing(p.op, p.since, p.local, 0)])
    case Publish(t) =>
      var shard := w.shards[p.op.shard];
      w.(threads := w.threads[t := Publishing(p.op, p.since, p.local, p.stores + 1)],
         shards := w.shards[p.op.shard :=
           if p.stores < 3 then shard.(gauges := Stored(shard.gauges, measure(shard.table), p.stores + 1))
           else shard.(cursor := Resumed(shard.cursor, p.op, p.local))])
    case Release(t) =>
      w.(threads := w.threads[t := Idle],
         shards := w.shards[p.op.shard := w.shards[p.op.shard].(held := false)],
         history := w.history + [Done(p.op, p.local, p.since)])
  }

  /** `w` can be reached from `first` by `actions`, each taken when it could be. */
  ghost predicate Reaches<S(!new), L(!new)>(first: World<S, L>, actions: seq<Action<S, L>>, w: World<S, L>,
                          measure: S -> Gauges)
    decreases |actions|
  {
    if actions == [] then w == first else
      Enabled(first, actions[0]) && Reaches(Apply(first, actions[0], measure), actions[1..], w, measure)
  }

  // ---------------------------------------------------------------------------------------------
  // The sequential history
  // ---------------------------------------------------------------------------------------------

  /** What one shard guards, and where its sweep resumes, after the sections of `history` one at a time. */
  ghost function Replay<S, L>(first: Shard<S>, history: seq<Done<S, L>>, i: nat): (S, nat)
  {
    if history == [] then (first.table, first.cursor) else
      var before := Replay(first, history[..|history| - 1], i);
      var last := history[|history| - 1];
      if last.op.shard != i then before else
        (Alone(last.op.body, before.0, last.op.start).0, Resumed(before.1, last.op, last.out))
  }

  /** Every section told its caller what it would have, had it run alone at its place in the history; and no
      section is placed before one that was over when it was asked for. */
  ghost predicate Sequential<S, L>(first: World<S, L>, history: seq<Done<S, L>>)
  {
    forall k :: 0 <= k < |history| ==>
      && history[k].since <= k
      && history[k].op.shard < |first.shards|
      && history[k].out == Told(first.shards[history[k].op.shard], history, k)
  }

  ghost function Told<S, L>(first: Shard<S>, history: seq<Done<S, L>>, k: nat): L
    requires k < |history|
  {
    Alone(history[k].op.body, Replay(first, history[..k], history[k].op.shard).0, history[k].op.start).1
  }

  lemma ReplayMore<S, L>(first: Shard<S>, history: seq<Done<S, L>>, last: Done<S, L>, i: nat)
    ensures Replay(first, history + [last], i) ==
      var before := Replay(first, history, i);
      if last.op.shard != i then before else
        (Alone(last.op.body, before.0, last.op.start).0, Resumed(before.1, last.op, last.out))
  {
    assert (history + [last])[..|history|] == history;
  }

  lemma SequentialMore<S, L>(first: World<S, L>, history: seq<Done<S, L>>, last: Done<S, L>)
    requires Sequential(first, history) && last.since <= |history| && last.op.shard < |first.shards|
    requires last.out == Alone(last.op.body, Replay(first.shards[last.op.shard], history, last.op.shard).0,
        last.op.start).1
    ensures Sequential(first, history + [last])
  {
    var more := history + [last];
    forall k | 0 <= k < |more|
      ensures more[k].since <= k && more[k].op.shard < |first.shards|
          && more[k].out == Told(first.shards[more[k].op.shard], more, k)
    {
      assert more[..k] == history[..k];
      assert k == |history| ==> history[..k] == history;
    }
  }

  lemma AloneMore<S, L>(body: seq<(S, L) -> (S, L)>, pc: nat, s: S, l: L)
    requires pc < |body|
    ensures Alone(body[..pc + 1], s, l) == var r := Alone(body[..pc], s, l); body[pc](r.0, r.1)
  {
    assert body[..pc + 1][..pc] == body[..pc];
  }

  lemma {:induction false} LookingLeaves<S(!new), L(!new)>(body: seq<(S, L) -> (S, L)>, s: S, l: L)
    requires OnlyLooks(body)
    ensures Alone(body, s, l).0 == s
    decreases |body|
  {
    if body != [] {
      var most := body[..|body| - 1];
      assert OnlyLooks(most) by {
        forall i, s, l | 0 <= i < |most|
          ensures most[i](s, l).0 == s
        {
          assert most[i] == body[i];
        }
      }
      LookingLeaves(most, s, l);
    }
  }

  // ---------------------------------------------------------------------------------------------
  // What every step keeps
  // ---------------------------------------------------------------------------------------------

  ghost predicate Inside<S, L>(p: Phase<S, L>, i: nat)
  {
    (p.Working? || p.Publishing?) && p.op.shard == i
  }

  ghost predicate Holds<S, L>(w: World<S, L>, t: nat, i: nat)
  {
    t < |w.threads| && Inside(w.threads[t], i)
  }

  /** No shard has two holders, and a lock is taken exactly while a thread is inside. */
  ghost predicate Exclusive<S, L>(w: World<S, L>)
  {
    && (forall t: nat, u: nat, i: nat :: Holds(w, t, i) && Holds(w, u, i) ==> t == u)
    && (forall t: nat, i: nat :: Holds(w, t, i) ==> i < |w.shards| && w.shards[i].held)
    && (forall i: nat :: i < |w.shards| && w.shards[i].held ==> exists t: nat :: Holds(w, t, i))
  }

  /** A shard nobody is inside holds what the history leaves, and publishes just that. */
  ghost predicate Settled<S>(shard: Shard<S>, past: (S, nat), measure: S -> Gauges)
  {
    shard.table == past.0 && shard.cursor == past.1 && shard.gauges == measure(past.0)
  }

  /** What a thread can rely on at each phase; `past` is what the history leaves in its shard. */
  ghost predicate Coherent<S(!new), L(!new)>(p: Phase<S, L>, shard: Shard<S>, past: (S, nat), measure: S -> Gauges)
    requires p.Working? || p.Publishing?
  {
    match p
    case Working(op, _, pc, local) =>
      && pc <= |op.body|
      && (shard.table, local) == Alone(op.body[..pc], past.0, op.start)
      && shard.gauges == measure(past.0) && shard.cursor == past.1
    case Publishing(op, _, local, stores) =>
      && stores <= STORES
      && (shard.table, local) == Alone(op.body, past.0, op.start)
      && shard.gauges == Stored(measure(past.0), measure(shard.table), stores)
      && shard.cursor == (if stores < STORES then past.1 else Resumed(past.1, op, local))
  }

  ghost predicate WellAsked<S(!new), L(!new)>(p: Phase<S, L>, shards: nat, past: nat)
  {
    match p
    case Idle => true
    case Aimed(i) => i < shards
    case _ => p.op.shard < shards && p.since <= past && (p.op.publishes || (OnlyLooks(p.op.body) && p.op.sweep.None?))
  }

  ghost predicate Good<S(!new), L(!new)>(first: World<S, L>, w: World<S, L>, measure: S -> Gauges)
  {
    && |w.shards| == |first.shards|
    && Exclusive(w)
    && Sequential(first, w.history)
    && (forall t :: 0 <= t < |w.threads| ==> WellAsked(w.threads[t], |w.shards|, |w.history|))
    && (forall i :: 0 <= i < |w.shards| && !w.shards[i].held ==>
        Settled(w.shards[i], Replay(first.shards[i], w.history, i), measure))
    && (forall t: nat, i: nat :: i < |w.shards| && Holds(w, t, i) ==>
          Coherent(w.threads[t], w.shards[i], Replay(first.shards[i], w.history, i), measure))
  }

  /** A map just made: nobody in it, and every counter right. */
  ghost predicate Fresh<S, L>(w: World<S, L>, measure: S -> Gauges)
  {
    && w.history == []
    && (forall t :: 0 <= t < |w.threads| ==> w.threads[t].Idle?)
    && (forall i :: 0 <= i < |w.shards| ==> !w.shards[i].held && w.shards[i].gauges == measure(w.shards[i].table))
  }

  lemma FreshIsGood<S(!new), L(!new)>(w: World<S, L>, measure: S -> Gauges)
    requires Fresh(w, measure)
    ensures Good(w, w, measure)
  {
  }

  /** A thread that moves within a shard, or outside them all, leaves the locks in order. */
  lemma StaysExclusive<S, L>(w: World<S, L>, t: nat, p: Phase<S, L>, next: World<S, L>)
    requires Exclusive(w) && t < |w.threads| && next.threads == w.threads[t := p] && |next.shards| == |w.shards|
    requires forall i: nat :: Inside(p, i) <==> Inside(w.threads[t], i)
    requires forall i :: 0 <= i < |w.shards| ==> next.shards[i].held == w.shards[i].held
    ensures Exclusive(next)
    ensures forall u: nat, i: nat :: Holds(next, u, i) <==> Holds(w, u, i)
  {
    assert forall u: nat, i: nat :: Holds(next, u, i) <==> Holds(w, u, i);
    forall i: nat | i < |next.shards| && next.shards[i].held
      ensures exists u: nat :: Holds(next, u, i)
    {
      var u: nat :| Holds(w, u, i);
      assert Holds(next, u, i);
    }
  }

  /** A thread outside moves to a place that is outside too. */
  lemma StaysOutside<S(!new), L(!new)>(first: World<S, L>, w: World<S, L>, t: nat, p: Phase<S, L>, turn: u64,
                       measure: S -> Gauges)
    requires Good(first, w, measure) && t < |w.threads|
    requires !w.threads[t].Working? && !w.threads[t].Publishing? && !p.Working? && !p.Publishing?
    requires WellAsked(p, |w.shards|, |w.history|)
    ensures Good(first, w.(threads := w.threads[t := p], turn := turn), measure)
  {
    hide Coherent, Settled, Sequential, WellAsked, Replay, Exclusive;
    StaysExclusive(w, t, p, w.(threads := w.threads[t := p], turn := turn));
  }

  /** A thread inside moves to a place inside the same shard, having changed only what the lock guards. */
  lemma StaysInside<S(!new), L(!new)>(first: World<S, L>, w: World<S, L>, t: nat, p: Phase<S, L>, shard: Shard<S>,
                      measure: S -> Gauges)
    requires Good(first, w, measure) && t < |w.threads| && (w.threads[t].Working? || w.threads[t].Publishing?)
    requires Inside(p, w.threads[t].op.shard) && WellAsked(p, |w.shards|, |w.history|)
    requires p.op.shard < |w.shards| && shard.held
    requires Coherent(p, shard, Replay(first.shards[p.op.shard], w.history, p.op.shard), measure)
    ensures Good(first, w.(threads := w.threads[t := p], shards := w.shards[p.op.shard := shard]), measure)
  {
    hide Coherent, Settled, Sequential, WellAsked, Replay, Exclusive;
    var next := w.(threads := w.threads[t := p], shards := w.shards[p.op.shard := shard]);
    OnlyOneInside(w, t, p.op.shard);
    StaysExclusive(w, t, p, next);
    forall u: nat, i: nat | i < |next.shards| && Holds(next, u, i)
      ensures Coherent(next.threads[u], next.shards[i], Replay(first.shards[i], next.history, i), measure)
    {
      if u != t {
        assert Holds(w, u, i) && i != p.op.shard;
      }
    }
  }

  lemma OnlyOneInside<S, L>(w: World<S, L>, t: nat, i: nat)
    requires Exclusive(w) && Holds(w, t, i)
    ensures i < |w.shards| && w.shards[i].held
    ensures forall u: nat :: Holds(w, u, i) ==> u == t
  {
  }

  lemma Enters<S(!new), L(!new)>(first: World<S, L>, w: World<S, L>, t: nat, measure: S -> Gauges)
    requires Good(first, w, measure) && Enabled(w, Acquire(t))
    ensures Good(first, Apply(w, Acquire(t), measure), measure)
  {
    hide Sequential, Replay, OnlyLooks;
    var i := w.threads[t].op.shard;
    var next := Apply(w, Acquire(t), measure);
    var op := w.threads[t].op;
    assert WellAsked(w.threads[t], |w.shards|, |w.history|);
    assert op.body[..0] == [];
    assert forall u: nat, j: nat :: Holds(next, u, j) <==> Holds(w, u, j) || (u == t && j == i);
    forall j: nat | j < |next.shards| && next.shards[j].held
      ensures exists u: nat :: Holds(next, u, j)
    {
      assert Holds(next, t, i);
      if j != i {
        var u: nat :| Holds(w, u, j);
        assert Holds(next, u, j);
      }
    }
  }

  lemma Leaves<S(!new), L(!new)>(first: World<S, L>, w: World<S, L>, t: nat, measure: S -> Gauges)
    requires Good(first, w, measure) && Enabled(w, Release(t))
    ensures Good(first, Apply(w, Release(t), measure), measure)
  {
    var p := w.threads[t];
    var i := p.op.shard;
    var last := Done(p.op, p.local, p.since);
    assert Holds(w, t, i) && WellAsked(p, |w.shards|, |w.history|);
    assert p.op.body[..|p.op.body|] == p.op.body;
    var past := Replay(first.shards[i], w.history, i);
    if !p.op.publishes {
      LookingLeaves(p.op.body, past.0, p.op.start);
    }
    SequentialMore(first, w.history, last);
    LeavesGood(first, w, t, measure);
  }

  lemma LeavesGood<S(!new), L(!new)>(first: World<S, L>, w: World<S, L>, t: nat, measure: S -> Gauges)
    requires Good(first, w, measure) && Enabled(w, Release(t))
    requires var p := w.threads[t]; Sequential(first, w.history + [Done(p.op, p.local, p.since)])
    requires
      var p := w.threads[t];
      var i := p.op.shard;
      var past := Replay(first.shards[i], w.history, i);
      Settled(w.shards[i], (Alone(p.op.body, past.0, p.op.start).0, Resumed(past.1, p.op, p.local)), measure)
    ensures Good(first, Apply(w, Release(t), measure), measure)
  {
    hide Sequential, Replay, OnlyLooks, Coherent, Settled, Alone;
    var p := w.threads[t];
    var i := p.op.shard;
    var last := Done(p.op, p.local, p.since);
    var next := Apply(w, Release(t), measure);
    assert Holds(w, t, i);
    assert forall u: nat, j: nat :: Holds(next, u, j) <==> Holds(w, u, j) && u != t;
    forall j: nat | j < |w.shards|
      ensures j != i ==> Replay(first.shards[j], next.history, j) == Replay(first.shards[j], w.history, j)
      ensures j == i ==> Settled(next.shards[j], Replay(first.shards[j], next.history, j), measure)
    {
      ReplayMore(first.shards[j], w.history, last, j);
      if j == i {
        SettledAlike(w.shards[i], next.shards[i], Replay(first.shards[i], next.history, i), measure);
      }
    }
    forall j: nat | j < |next.shards| && next.shards[j].held
      ensures exists u: nat :: Holds(next, u, j)
    {
      var u: nat :| Holds(w, u, j);
      assert Holds(next, u, j);
    }
  }

  lemma SettledAlike<S>(one: Shard<S>, other: Shard<S>, past: (S, nat), measure: S -> Gauges)
    requires Settled(one, past, measure) && other == one.(held := other.held)
    ensures Settled(other, past, measure)
  {
  }

  /** Every step keeps it all. */
  lemma StepKeeps<S(!new), L(!new)>(first: World<S, L>, w: World<S, L>, a: Action<S, L>, measure: S -> Gauges)
    requires Good(first, w, measure) && Enabled(w, a)
    ensures Good(first, Apply(w, a, measure), measure)
  {
    hide Sequential, Replay, OnlyLooks, Alone, Settled, Exclusive;
    var p := w.threads[a.t];
    assert WellAsked(p, |w.shards|, |w.history|);
    match a
    case Begin(t, op) => StaysOutside(first, w, t, Trying(op, |w.history|), w.turn, measure);
    case Aim(t) =>
      StaysOutside(first, w, t, Aimed(w.turn % |w.shards|), if w.turn + 1 == WORD then 0 else w.turn + 1, measure);
    case BeginSweep(t, op) => StaysOutside(first, w, t, Trying(op, |w.history|), w.turn, measure);
    case Fail(t) => StaysOutside(first, w, t, Spinning(p.op, p.since), w.turn, measure);
    case SeeFree(t) => StaysOutside(first, w, t, Trying(p.op, p.since), w.turn, measure);
    case SeeHeld(t) =>
    case Acquire(t) => Enters(first, w, t, measure);
    case Release(t) => Leaves(first, w, t, measure);
    case _ => InsideStepKeeps(first, w, a, measure);
  }

  lemma InsideStepKeeps<S(!new), L(!new)>(first: World<S, L>, w: World<S, L>, a: Action<S, L>, measure: S -> Gauges)
    requires Good(first, w, measure) && Enabled(w, a) && (a.Work? || a.StartPublishing? || a.Publish?)
    ensures Good(first, Apply(w, a, measure), measure)
  {
    hide Sequential, Replay, OnlyLooks, Alone, Settled;
    var p := w.threads[a.t];
    var i := p.op.shard;
    var next := Apply(w, a, measure);
    assert WellAsked(p, |w.shards|, |w.history|) && Holds(w, a.t, i);
    var past := Replay(first.shards[i], w.history, i);
    assert p.op.body[..|p.op.body|] == p.op.body;
    if a.Work? {
      AloneMore(p.op.body, p.pc, past.0, p.op.start);
    }
    assert Coherent(next.threads[a.t], next.shards[i], past, measure);
    StaysInside(first, w, a.t, next.threads[a.t], next.shards[i], measure);
    assert w.shards[i := w.shards[i]] == w.shards;
  }

  /** Over every run of any threads through any sections: one holder a shard, what is told and what is held is
      what the sections of the history would have told and left one at a time, and a free shard's counters are
      its table's. */
  lemma {:induction false} EveryRunIsSequential<S(!new), L(!new)>(first: World<S, L>, w: World<S, L>,
                          actions: seq<Action<S, L>>, last: World<S, L>, measure: S -> Gauges)
    requires Good(first, w, measure) && Reaches(w, actions, last, measure)
    ensures Good(first, last, measure)
    decreases |actions|
  {
    if actions != [] {
      StepKeeps(first, w, actions[0], measure);
      EveryRunIsSequential(first, Apply(w, actions[0], measure), actions[1..], last, measure);
    }
  }

  // ---------------------------------------------------------------------------------------------
  // What follows for callers
  // ---------------------------------------------------------------------------------------------

  /** A reader that takes no lock sees, of each counter, what was right before the section in progress or what
      is right now. */
  lemma CountersAreRecent<S(!new), L(!new)>(first: World<S, L>, w: World<S, L>, i: nat, measure: S -> Gauges)
    requires Good(first, w, measure) && i < |w.shards|
    ensures
      var past := measure(Replay(first.shards[i], w.history, i).0);
      var now := measure(w.shards[i].table);
      && w.shards[i].gauges.len in {past.len, now.len}
      && w.shards[i].gauges.resident in {past.resident, now.resident}
      && w.shards[i].gauges.charged in {past.charged, now.charged}
  {
    hide Sequential, Replay, OnlyLooks, Alone;
    if w.shards[i].held {
      var t: nat :| Holds(w, t, i);
    }
  }

  /** How many entries the counters say there are, as a sum of one read a shard. */
  function Len<S>(shards: seq<Shard<S>>): nat
  {
    if shards == [] then 0 else Len(shards[..|shards| - 1]) + shards[|shards| - 1].gauges.len
  }

  ghost function Held<S>(shards: seq<Shard<S>>, measure: S -> Gauges): nat
  {
    if shards == [] then 0 else Held(shards[..|shards| - 1], measure) + measure(shards[|shards| - 1].table).len
  }

  lemma {:induction false} SumsAgree<S>(shards: seq<Shard<S>>, measure: S -> Gauges)
    requires forall i :: 0 <= i < |shards| ==> shards[i].gauges == measure(shards[i].table)
    ensures Len(shards) == Held(shards, measure)
  {
    if shards != [] {
      SumsAgree(shards[..|shards| - 1], measure);
    }
  }

  /** Over every run, whenever no lock is held the sum of the counters is the number of entries there are. */
  lemma QuietLen<S(!new), L(!new)>(first: World<S, L>, actions: seq<Action<S, L>>, last: World<S, L>,
                   measure: S -> Gauges)
    requires Fresh(first, measure) && Reaches(first, actions, last, measure)
    requires forall i :: 0 <= i < |last.shards| ==> !last.shards[i].held
    ensures Len(last.shards) == Held(last.shards, measure)
  {
    hide Reaches, Sequential, Replay, Coherent;
    FreshIsGood(first, measure);
    EveryRunIsSequential(first, first, actions, last, measure);
    SumsAgree(last.shards, measure);
  }

  /** What is over keeps its place: whatever is asked for from then on comes after it. Of a section asked for when
      `w` was reached, `since` says so, and it is never placed before that. */
  lemma {:induction false} RealTimeOrder<S(!new), L(!new)>(first: World<S, L>, w: World<S, L>, actions: seq<Action<S,
                          L>>, last: World<S, L>, measure: S -> Gauges)
    requires Good(first, w, measure) && Reaches(w, actions, last, measure)
    ensures w.history <= last.history
    ensures forall k :: 0 <= k < |last.history| ==> last.history[k].since <= k
    decreases |actions|
  {
    hide Told, OnlyLooks, Coherent, Settled, Exclusive;
    if actions != [] {
      StepKeeps(first, w, actions[0], measure);
      RealTimeOrder(first, Apply(w, actions[0], measure), actions[1..], last, measure);
    }
  }

  // ---------------------------------------------------------------------------------------------
  // Increments
  // ---------------------------------------------------------------------------------------------

  /** Where `fit` holds the section keeps it, and moves `count` by what it tells its caller it added. */
  ghost predicate Honest<S(!new), L>(op: Op<S, L>, fit: S -> bool, count: S -> int, added: L -> int)
  {
    forall s: S :: fit(s) ==>
      var r := Alone(op.body, s, op.start);
      fit(r.0) && count(r.0) == count(s) + added(r.1)
  }

  /** What the callers of one shard's sections were told was added, in all. */
  ghost function Added<S, L>(history: seq<Done<S, L>>, i: nat, added: L -> int): int
  {
    if history == [] then 0 else
      var last := history[|history| - 1];
      Added(history[..|history| - 1], i, added) + (if last.op.shard == i then added(last.out) else 0)
  }

  lemma {:induction false} ReplayAdds<S(!new), L(!new)>(first: World<S, L>, history: seq<Done<S, L>>, i: nat,
                                                        fit: S -> bool, count: S -> int, added: L -> int)
    requires Sequential(first, history) && i < |first.shards| && fit(first.shards[i].table)
    requires forall k :: 0 <= k < |history| && history[k].op.shard == i ==> Honest(history[k].op, fit, count, added)
    ensures var now := Replay(first.shards[i], history, i).0;
            fit(now) && count(now) == count(first.shards[i].table) + Added(history, i, added)
    decreases |history|
  {
    if history != [] {
      var n := |history| - 1;
      var most := history[..n];
      SequentialLess(first, history);
      ReplayAdds(first, most, i, fit, count, added);
      if history[n].op.shard == i {
        assert history[n].out == Told(first.shards[i], history, n);
      }
    }
  }

  lemma SequentialLess<S, L>(first: World<S, L>, history: seq<Done<S, L>>)
    requires Sequential(first, history) && history != []
    ensures Sequential(first, history[..|history| - 1])
  {
    var most := history[..|history| - 1];
    forall k | 0 <= k < |most|
      ensures most[k].since <= k && most[k].op.shard < |first.shards|
          && most[k].out == Told(first.shards[most[k].op.shard], most, k)
    {
      assert most[k] == history[k] && most[..k] == history[..k];
    }
  }

  /** No increment is lost: over every run, a free shard's count is what it began with and everything its
      callers were told they added. */
  lemma NoIncrementIsLost<S(!new), L(!new)>(first: World<S, L>, actions: seq<Action<S, L>>, last: World<S, L>, i: nat,
                                            measure: S -> Gauges, fit: S -> bool, count: S -> int, added: L -> int)
    requires Fresh(first, measure) && Reaches(first, actions, last, measure)
    requires i < |last.shards| == |first.shards| && !last.shards[i].held && fit(first.shards[i].table)
    requires forall k ::
        0 <= k < |last.history| && last.history[k].op.shard == i ==> Honest(last.history[k].op, fit, count, added)
    ensures count(last.shards[i].table) == count(first.shards[i].table) + Added(last.history, i, added)
  {
    hide Honest, Added, Alone, Coherent;
    FreshIsGood(first, measure);
    EveryRunIsSequential(first, first, actions, last, measure);
    ReplayAdds(first, last.history, i, fit, count, added);
  }

  // ---------------------------------------------------------------------------------------------
  // Progress
  // ---------------------------------------------------------------------------------------------

  /** Steps a thread inside has left to take. */
  function Remaining<S, L>(p: Phase<S, L>): nat
  {
    match p
    case Working(op, _, pc, _) => if pc <= |op.body| then |op.body| - pc + STORES + 2 else 0
    case Publishing(_, _, _, stores) => if stores <= STORES then STORES - stores + 1 else 0
    case _ => 0
  }

  /** What a thread inside does next. */
  function Onward<S, L>(p: Phase<S, L>, t: nat): Action<S, L>
    requires p.Working? || p.Publishing?
  {
    match p
    case Working(op, _, pc, _) =>
      if pc < |op.body| then Work(t) else if op.publishes then StartPublishing(t) else Release(t)
    case Publishing(_, _, _, stores) => if stores < STORES then Publish(t) else Release(t)
  }

  /** Whoever holds a lock can always take its next step, and comes out after finitely many of its own, with no
      other thread moving. */
  lemma {:induction false} HolderGetsOut<S(!new), L(!new)>(first: World<S, L>, w: World<S, L>, u: nat, i: nat,
                          measure: S -> Gauges)
      returns (actions: seq<Action<S, L>>, last: World<S, L>)
    requires Good(first, w, measure) && i < |w.shards| && Holds(w, u, i)
    ensures Reaches(w, actions, last, measure) && Good(first, last, measure)
    ensures |last.threads| == |w.threads| && |last.shards| == |w.shards| && !last.shards[i].held
    ensures |actions| <= Remaining(w.threads[u]) && forall k :: 0 <= k < |actions| ==> actions[k].t == u
    ensures forall t :: 0 <= t < |w.threads| && t != u ==> last.threads[t] == w.threads[t]
    decreases Remaining(w.threads[u])
  {
    hide Sequential, Replay, OnlyLooks, Alone, Settled;
    var p := w.threads[u];
    var a := Onward(p, u);
    assert Coherent(p, w.shards[i], Replay(first.shards[i], w.history, i), measure);
    StepKeeps(first, w, a, measure);
    var next := Apply(w, a, measure);
    if a.Release? {
      actions, last := [a], next;
      assert actions[1..] == [];
      assert Reaches(next, [], next, measure);
    } else {
      var more, end := HolderGetsOut(first, next, u, i, measure);
      actions, last := [a] + more, end;
      assert actions[1..] == more;
    }
  }

  /** No deadlock: from every reachable state a thread waiting for a lock can be let in by steps of its holder
      and its own. */
  lemma WaiterCanEnter<S(!new), L(!new)>(first: World<S, L>, w: World<S, L>, t: nat, measure: S -> Gauges)
      returns (actions: seq<Action<S, L>>, last: World<S, L>)
    requires Good(first, w, measure) && t < |w.threads| && (w.threads[t].Trying? || w.threads[t].Spinning?)
    ensures Reaches(w, actions, last, measure) && Good(first, last, measure)
    ensures t < |last.threads|
        && last.threads[t] == Working(w.threads[t].op, w.threads[t].since, 0, w.threads[t].op.start)
  {
    hide Sequential, Replay, OnlyLooks, Alone, Settled, Coherent;
    var p := w.threads[t];
    var i := p.op.shard;
    assert WellAsked(p, |w.shards|, |w.history|);
    actions, last := [], w;
    if w.shards[i].held {
      var u: nat :| Holds(w, u, i);
      actions, last := HolderGetsOut(first, w, u, i, measure);
    }
    if p.Spinning? {
      actions, last := OneMore(first, w, actions, last, SeeFree(t), measure);
    }
    actions, last := OneMore(first, w, actions, last, Acquire(t), measure);
  }

  lemma OneMore<S(!new), L(!new)>(first: World<S, L>, w: World<S, L>, actions: seq<Action<S, L>>, last: World<S, L>,
                  a: Action<S, L>, measure: S -> Gauges)
      returns (more: seq<Action<S, L>>, next: World<S, L>)
    requires Reaches(w, actions, last, measure) && Good(first, last, measure) && Enabled(last, a)
    ensures Reaches(w, more, next, measure) && Good(first, next, measure) && next == Apply(last, a, measure)
  {
    hide Good, Enabled;
    more, next := actions + [a], Apply(last, a, measure);
    StepKeeps(first, last, a, measure);
    ReachesOneMore(w, actions, last, a, measure);
  }

  lemma {:induction false} ReachesOneMore<S(!new), L(!new)>(w: World<S, L>, actions: seq<Action<S, L>>, last: World<S,
                          L>, a: Action<S, L>, measure: S -> Gauges)
    requires Reaches(w, actions, last, measure) && Enabled(last, a)
    ensures Reaches(w, actions + [a], Apply(last, a, measure), measure)
    decreases |actions|
  {
    hide Enabled, Apply;
    var more := actions + [a];
    if actions == [] {
      assert more[1..] == [];
      assert Reaches(Apply(last, a, measure), [], Apply(last, a, measure), measure);
    } else {
      assert more[0] == actions[0] && more[1..] == actions[1..] + [a];
      ReachesOneMore(Apply(w, actions[0], measure), actions[1..], last, a, measure);
    }
  }
}
