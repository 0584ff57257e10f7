/** Which shard each background sweep goes to, and where in it, over any run of threads. */
module SweepTurns {
  import opened Bytes
  import Probe
  import opened Sharded

  // ---------------------------------------------------------------------------------------------
  // Which shard
  // ---------------------------------------------------------------------------------------------

  /** The shards that the sweeps asked for in a run go to, in the order they are asked for: what each leaves its thread
      aimed at. */
  ghost function AimedAt<S(!new), L(!new)>(w: World<S, L>, actions: seq<Action<S, L>>, measure: S -> Gauges): seq<nat>
    decreases |actions|
  {
    if actions == [] || !Enabled(w, actions[0]) then []
    else
      var a, next := actions[0], Apply(w, actions[0], measure);
      (if a.Aim? && a.t < |next.threads| && next.threads[a.t].Aimed? then [next.threads[a.t].shard] else [])
      + AimedAt(next, actions[1..], measure)
  }

  /** How many sweeps are asked for in a run. */
  function Asked<S, L>(actions: seq<Action<S, L>>): nat
  {
    if actions == [] then 0 else (if actions[0].Aim? then 1 else 0) + Asked(actions[1..])
  }

  /** The shard that the k-th draw from a count goes to, the count wrapping. */
  function Drawn(turn: nat, k: nat, shards: nat): nat
    requires shards > 0
  {
    ((turn + k) % WORD) % shards
  }

  lemma NextCount(turn: u64, k: nat)
    ensures ((if turn + 1 == WORD then 0 else turn + 1) + k) % WORD == (turn + (k + 1)) % WORD
    ensures (turn + 0) % WORD == turn
  {
    if turn + 1 == WORD {
      Probe.ModShift(k, 1, WORD);
    }
  }

  lemma NextDraw(turn: u64, k: nat, shards: nat)
    requires shards > 0
    ensures Drawn(if turn + 1 == WORD then 0 else turn + 1, k, shards) == Drawn(turn, k + 1, shards)
    ensures Drawn(turn, 0, shards) == turn % shards
  {
    NextCount(turn, k);
  }

  /** An aim takes the count's remainder and moves the count on by one, wrapping; nothing else touches either. */
  lemma AimTakesATurn<S(!new), L(!new)>(w: World<S, L>, a: Action<S, L>, measure: S -> Gauges)
    requires Enabled(w, a)
    ensures |Apply(w, a, measure).shards| == |w.shards|
    ensures a.Aim? ==>
      var next := Apply(w, a, measure);
      && |w.shards| > 0 && a.t < |next.threads| && next.threads[a.t] == Aimed(w.turn % |w.shards|)
      && next.turn == if w.turn + 1 == WORD then 0 else w.turn + 1
    ensures !a.Aim? ==> Apply(w, a, measure).turn == w.turn
  {
    hide OnlyLooks;
  }

  /** The k-th sweep of a run goes to the shard its place in the wrapping count says. */
  lemma {:induction false} AimsGoRound<S(!new), L(!new)>(w: World<S, L>, actions: seq<Action<S, L>>, last: World<S, L>,
                                                         measure: S -> Gauges, k: nat)
    requires Reaches(w, actions, last, measure)
    ensures |AimedAt(w, actions, measure)| == Asked(actions)
    ensures k < Asked(actions) ==> |w.shards| > 0 && AimedAt(w, actions, measure)[k] == Drawn(w.turn, k, |w.shards|)
    decreases |actions|
  {
    hide Enabled, Apply, Drawn;
    if actions != [] {
      var a, next := actions[0], Apply(w, actions[0], measure);
      AimTakesATurn(w, a, measure);
      if a.Aim? {
        NextDraw(w.turn, if k == 0 then 0 else k - 1, |w.shards|);
      }
      AimsGoRound(next, actions[1..], last, measure, if a.Aim? && k > 0 then k - 1 else k);
    }
  }

  lemma ByteIsAPower()
    ensures Probe.Pow2(8) == 256
  {
    assert Probe.Pow2(4) == 16;
  }

  lemma WordIsAPower()
    ensures WORD == Probe.Pow2(64)
  {
    hide Probe.Pow2;
    ByteIsAPower();
    Probe.PowersAdd(8, 8);
    Probe.PowersAdd(16, 16);
    Probe.PowersAdd(32, 32);
  }

  /** Among as many sweeps in a row as there are shards, over every run and wherever the count wraps, each shard is gone
      to exactly once. */
  lemma EveryShardHasItsTurn<S(!new), L(!new)>(w: World<S, L>, actions: seq<Action<S, L>>, last: World<S, L>,
                                               measure: S -> Gauges, from: nat, i: nat)
    requires Probe.IsPow2(|w.shards|) && |w.shards| <= WORD
    requires Reaches(w, actions, last, measure) && i < |w.shards|
    requires from + |w.shards| <= Asked(actions)
    ensures |AimedAt(w, actions, measure)| == Asked(actions)
    ensures exists k :: from <= k < from + |w.shards| && AimedAt(w, actions, measure)[k] == i
    ensures forall j, k :: from <= j < k < from + |w.shards| ==>
              AimedAt(w, actions, measure)[j] != AimedAt(w, actions, measure)[k]
  {
    hide Reaches, AimedAt, Asked, Probe.Pow2;
    WordIsAPower();
    var times := Probe.PowerDivides(|w.shards|, 64);
    var n, aims := |w.shards|, AimedAt(w, actions, measure);
    AimsGoRound(w, actions, last, measure, 0);
    forall k | from <= k < from + n
      ensures aims[k] == (w.turn + k) % n
    {
      AimsGoRound(w, actions, last, measure, k);
      Probe.WrapIsHarmless(w.turn + k, WORD, n, times);
    }
    var d := Probe.RemainderReached(w.turn + from, n, i);
    assert aims[from + d] == i;
    forall j, k | from <= j < k < from + n
      ensures aims[j] != aims[k]
    {
      Probe.RemaindersDiffer(w.turn + j, w.turn + k, n);
    }
  }

  // ---------------------------------------------------------------------------------------------
  // Where in it
  // ---------------------------------------------------------------------------------------------

  /** Of all that was done to shard `i`, the k-th of the history was its last sweep, and `at` is where it left off. */
  ghost predicate LastSweep<S, L>(history: seq<Done<S, L>>, i: nat, k: nat, at: nat)
  {
    && k < |history| && history[k].op.shard == i && history[k].op.sweep.Some?
    && at == history[k].op.sweep.value.next(history[k].out)
    && forall j :: k < j < |history| && history[j].op.shard == i ==> history[j].op.sweep.None?
  }

  /** `at` is what shard `i`'s last sweep in the history said, or where the shard began if it has had none. */
  ghost predicate LastSaid<S, L>(first: World<S, L>, history: seq<Done<S, L>>, i: nat, at: nat)
    requires i < |first.shards|
  {
    || (&& (forall k :: 0 <= k < |history| && history[k].op.shard == i ==> history[k].op.sweep.None?)
        && at == first.shards[i].cursor)
    || exists k: nat :: LastSweep(history, i, k, at)
  }

  /** What is done after it and is no sweep of the shard leaves its last sweep as it was. */
  lemma SaidBefore<S, L>(first: World<S, L>, history: seq<Done<S, L>>, i: nat, at: nat)
    requires i < |first.shards| && history != [] && LastSaid(first, history[..|history| - 1], i, at)
    requires var last := history[|history| - 1]; last.op.shard == i ==> last.op.sweep.None?
    ensures LastSaid(first, history, i, at)
  {
    var most := history[..|history| - 1];
    assert forall k :: 0 <= k < |most| ==> most[k] == history[k];
    if k: nat :| LastSweep(most, i, k, at) {
      assert LastSweep(history, i, k, at);
    }
  }

  lemma {:induction false} ReplaySaid<S, L>(first: World<S, L>, history: seq<Done<S, L>>, i: nat)
    requires i < |first.shards|
    ensures LastSaid(first, history, i, Replay(first.shards[i], history, i).1)
    decreases |history|
  {
    hide Alone;
    if history != [] {
      var n := |history| - 1;
      var most, last := history[..n], history[n];
      ReplaySaid(first, most, i);
      var at := Replay(first.shards[i], most, i).1;
      if last.op.shard == i && last.op.sweep.Some? {
        assert LastSweep(history, i, n, last.op.sweep.value.next(last.out));
      } else {
        SaidBefore(first, history, i, at);
      }
    }
  }

  /** The thread inside a shard has finished its sweep and stored where the next is to resume, but not let go. */
  ghost predicate JustSaid<S, L>(w: World<S, L>, i: nat, at: nat)
  {
    exists t: nat :: Holds(w, t, i) && w.threads[t].Publishing? && w.threads[t].stores == STORES
      && w.threads[t].op.sweep.Some? && at == w.threads[t].op.sweep.value.next(w.threads[t].local)
  }

  /** Over every run, a sweep is of the shard its thread drew, and resumes where the last sweep of that shard to be over
      said, or where one that has only to let go of the lock does. */
  lemma SweepResumes<S(!new), L(!new)>(first: World<S, L>, actions: seq<Action<S, L>>, w: World<S, L>, t: nat,
                                       op: Op<S, L>, measure: S -> Gauges)
    requires Fresh(first, measure) && Reaches(first, actions, w, measure) && Enabled(w, BeginSweep(t, op))
    ensures t < |w.threads| && w.threads[t] == Aimed(op.shard)
    ensures op.shard < |first.shards| && op.sweep.Some?
    ensures LastSaid(first, w.history, op.shard, op.sweep.value.from) || JustSaid(w, op.shard, op.sweep.value.from)
  {
    hide Reaches, Alone, OnlyLooks, Sequential, LastSaid;
    FreshIsGood(first, measure);
    EveryRunIsSequential(first, first, actions, w, measure);
    var i := op.shard;
    ReplaySaid(first, w.history, i);
    if w.shards[i].held {
      var u: nat :| Holds(w, u, i);
      assert Coherent(w.threads[u], w.shards[i], Replay(first.shards[i], w.history, i), measure);
    }
  }
}
