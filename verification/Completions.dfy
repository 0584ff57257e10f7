/** What each completion does to the connection it is for, and to no other. */
module Completions {
  import opened Bytes
  import opened Serving
  import opened Session
  import opened CompletionLoop
  import Resp

  // ---------------------------------------------------------------------------------------------
  // One completion
  // ---------------------------------------------------------------------------------------------

  /** The connection in slot `i` has come to be `now` and nobody else is touched: it is still there, with the one
      operation its state calls for in the kernel's hands; or it is the last to have left, by its own wish exactly when
      it is done, and otherwise only because nothing could be asked for it, which ends the loop. */
  ghost predicate Settled(w: World, i: nat, now: Client, submitted: bool, n: World)
  {
    && Framed(now.state) && n.seen == w.seen && |n.conns| == |w.conns| && i < |n.conns|
    && (forall j :: 0 <= j < |n.conns| && j != i ==> n.conns[j] == w.conns[j])
    && if n.conns[i].Some? then
         && n.conns[i].value == now && submitted && !IsDone(now.state)
         && n.free == w.free && n.gone == w.gone && n.alive == w.alive
         && n.ring == w.ring + multiset{FlightOf(i, now)}
       else
         && n.gone == w.gone + [Departed(now, IsDone(now.state))] && (submitted ==> IsDone(now.state))
         && n.free == w.free + [i] && n.alive == (w.alive && IsDone(now.state)) && n.ring == w.ring
  }

  /** A connection that waits for bytes is not done. */
  lemma WaitingIsNotDone(s: State, oracle: Oracle)
    requires Good(s, oracle) && !s.closing && |s.buf| - s.filled >= SPARE
    ensures !IsDone(s)
  {
    hide InStep, Resp.Parse;
  }

  lemma OnwardSettles(w: World, i: nat, c: Client, submitted: bool)
    requires Occupied(w, i) && Good(c.state, c.oracle) && Framed(c.state)
    ensures
      var r := Stepped(c.state, c.oracle).0;
      && r.trace.received == c.state.trace.received && r.trace.wrote == c.state.trace.wrote
      && Settled(w, i, c.(state := r), submitted, Onward(w, i, c, submitted))
  {
    hide Good, Stepped, Resp.Parse;
    SteppedIsGood(c.state, c.oracle);
    var (r, want) := Stepped(c.state, c.oracle);
    GoodIsFramed(r, c.oracle);
    if want.Recv? {
      WaitingIsNotDone(r, c.oracle);
    }
  }

  /** What a completion of `res` bytes makes of the connection that asked: a read's bytes have arrived, or a write's
      have gone out, and nothing else has. */
  ghost predicate Advanced(was: Client, f: Flight, res: nat, data: seq<byte>, now: Client)
    requires ForSlot(f)
  {
    var t, u := was.state.trace, now.state.trace;
    && now.id == was.id == f.whose && now.oracle == was.oracle
    && if f.Receiving? then u.received == t.received + data && u.wrote == t.wrote
       else
         && u.received == t.received && f.at + res <= |was.state.out|
         && u.wrote == t.wrote + was.state.out[f.at..f.at + res]
  }

  lemma CreditedAdvances(c: Client, i: nat, res: nat, data: seq<byte>)
    requires Good(c.state, c.oracle) && Framed(c.state)
    requires var f := FlightOf(i, c); res <= f.len && (if f.Receiving? then |data| == res else data == [])
    ensures
      var s, f := c.state, FlightOf(i, c);
      && (f.Receiving? ==> f.at + |data| <= |s.buf|)
      && var d := if f.Receiving? then Deposited(s, f.at, data) else s;
      && Framed(d) && Good(Credited(d, res), c.oracle)
      && Advanced(c, f, res, data, c.(state := Credited(d, res)))
  {
    hide Good;
    CreditedRightly(c, i, res, data);
  }

  /** Every completion that moved bytes: the connection that asked has them counted, all of them and as what they were,
      and goes on, or leaves done, or leaves because nothing more could be asked for it. */
  lemma FinishedAdvances(w: World, f: Flight, res: int, data: seq<byte>, submitted: bool) returns (now: Client)
    requires Sound(w) && Enabled(w, Finished(f, res, data, submitted)) && res > 0
    ensures Occupied(w, f.slot) && Advanced(w.conns[f.slot].value, f, res, data, now)
    ensures Settled(w.(ring := w.ring - multiset{f}), f.slot, now, submitted,
                Handled(w, Finished(f, res, data, submitted)))
  {
    hide Good, Sound, Credited, Onward, Stepped, Advanced, Deposited, FlightOf;
    FlightIsItsSlots(w, f);
    var c := w.conns[f.slot].value;
    CreditedAdvances(c, f.slot, res, data);
    var full := Loaded(w.(ring := w.ring - multiset{f}), f, data);
    var d := full.conns[f.slot].value;
    var e := d.(state := Credited(d.state, res));
    GoodIsFramed(e.state, e.oracle);
    OnwardSettles(full, f.slot, e, submitted);
    now := e.(state := Stepped(e.state, e.oracle).0);
    AdvancedStays(c, f, res, data, e, now);
    SettledSame(full, w.(ring := w.ring - multiset{f}), f.slot, now, submitted, Onward(full, f.slot, e, submitted));
  }

  lemma AdvancedStays(was: Client, f: Flight, res: nat, data: seq<byte>, mid: Client, now: Client)
    requires ForSlot(f) && Advanced(was, f, res, data, mid) && now == mid.(state := now.state)
    requires now.state.trace.received == mid.state.trace.received && now.state.trace.wrote == mid.state.trace.wrote
    ensures Advanced(was, f, res, data, now)
  {
  }

  /** What slot `i` held before does not matter. */
  lemma SettledSame(v: World, w: World, i: nat, now: Client, submitted: bool, n: World)
    requires Settled(v, i, now, submitted, n) && i < |w.conns| && v == w.(conns := v.conns)
    requires |v.conns| == |w.conns| && forall j :: 0 <= j < |w.conns| && j != i ==> v.conns[j] == w.conns[j]
    ensures Settled(w, i, now, submitted, n)
  {
    hide IsDone, FlightOf;
  }

  /** A completion that moved nothing: the connection that asked leaves as it was, and nobody else is touched. */
  lemma FinishedFails(w: World, f: Flight, res: int, data: seq<byte>, submitted: bool)
    requires Sound(w) && Enabled(w, Finished(f, res, data, submitted)) && res <= 0
    ensures Occupied(w, f.slot) && w.conns[f.slot].value.id == f.whose
    ensures Handled(w, Finished(f, res, data, submitted)) ==
      w.(conns := w.conns[f.slot := None], free := w.free + [f.slot], ring := w.ring - multiset{f},
         gone := w.gone + [Departed(w.conns[f.slot].value, false)])
  {
    hide Good, Sound, Deposited;
    FlightIsItsSlots(w, f);
    var c := w.conns[f.slot].value;
    GoodIsFramed(c.state, c.oracle);
    if f.Receiving? {
      NothingDeposited(c.state, f.at);
    }
    assert w.conns[f.slot := Some(c)] == w.conns;
  }

  // ---------------------------------------------------------------------------------------------
  // Accepts and ticks
  // ---------------------------------------------------------------------------------------------

  lemma FreshWaits(oracle: Oracle)
    ensures Framed(Fresh()) && Stepped(Fresh(), oracle) == (Fresh(), Recv(0, CHUNK))
  {
  }

  /** The slot a new connection goes to: the one last given up, or a new one. */
  function NextSlot(w: World): nat
  {
    if w.free == [] then |w.conns| else w.free[|w.free| - 1]
  }

  lemma NextSlotIsFree(w: World)
    requires Sound(w)
    ensures NextSlot(w) <= |w.conns| && !Occupied(w, NextSlot(w)) && (w.free != [] ==> NextSlot(w) < |w.conns|)
  {
    hide Good, Framed, FlightOf;
    assert w.free != [] ==> w.free[|w.free| - 1] in w.free;
  }

  /** A connection seated in the next slot, as connection `c` and as its first read is asked for or not. */
  ghost predicate SeatedAs(w: World, c: Client, submitted: bool, n: World)
  {
    var i := NextSlot(w);
    && i <= |w.conns| && !Occupied(w, i) && n.seen == w.seen + 1
    && |n.conns| == (if i == |w.conns| then i + 1 else |w.conns|)
    && (forall j :: 0 <= j < |w.conns| && j != i ==> n.conns[j] == w.conns[j])
    && n.conns[i] == (if submitted then Some(c) else None)
    && n.free == (if w.free == [] then [] else w.free[..|w.free| - 1]) + (if submitted then [] else [i])
    && n.ring == w.ring + (if submitted then multiset{Receiving(i, 0, CHUNK, w.seen)} else multiset{})
    && n.gone == w.gone + (if submitted then [] else [Departed(c, false)])
    && n.alive == (w.alive && submitted)
  }

  lemma SeatedSeats(w: World, oracle: Oracle, submitted: bool)
    requires NextSlot(w) <= |w.conns| && !Occupied(w, NextSlot(w)) && (w.free != [] ==> NextSlot(w) < |w.conns|)
    ensures SeatedAs(w, Client(w.seen, Fresh(), oracle), submitted, Seated(w, oracle, submitted))
  {
    hide Stepped, Fresh, Framed;
    FreshWaits(oracle);
  }

  /** An accept: a failure that says nothing of the listener arms it again and does no more; any other ends the loop;
      and one that brings a connection numbers it, seats it with its first read asked for, and arms the listener again,
      or gives it up when the read cannot be asked for. */
  lemma AcceptedSeats(w: World, l: nat, how: Accept)
    requires Sound(w) && Enabled(w, Accepted(l, how))
    ensures
      var n, stopped := Handled(w, Accepted(l, how)), w.(ring := w.ring - multiset{Accepting(l)}, alive := false);
      match how
      case Dead => n == stopped
      case Retry(armed) => n == if armed then w else stopped
      case Came(armed, prepared, oracle, submitted) =>
        if !armed then n == stopped
        else if !prepared then n == w
        else SeatedAs(w, Client(w.seen, Fresh(), oracle), submitted, n)
  {
    hide Sound, Seated, Fresh, Enabled, SeatedAs;
    NextSlotIsFree(w);
    IsAccepting(w, l, how);
    LastFreeIsASlot(w);
    if how.Came? {
      SeatedSeats(w, how.oracle, how.submitted);
    }
  }

  lemma IsAccepting(w: World, l: nat, how: Accept)
    requires Enabled(w, Accepted(l, how))
    ensures w.alive && w.ring - multiset{Accepting(l)} + multiset{Accepting(l)} == w.ring
  {
  }

  // ---------------------------------------------------------------------------------------------
  // Every run
  // ---------------------------------------------------------------------------------------------

  /** Where a connection may be: in a slot, or among those that have left. */
  datatype Place = Slot(i: nat) | Out(d: nat)

  ghost predicate At(w: World, p: Place, id: nat)
  {
    match p
    case Slot(i) => Occupied(w, i) && w.conns[i].value.id == id
    case Out(d) => d < |w.gone| && w.gone[d].client.id == id
  }

  ghost predicate Somewhere(w: World, id: nat)
  {
    exists p :: At(w, p, id)
  }

  /** Every connection accepted since number `base` is in exactly one place, and nobody else is in any. */
  ghost predicate Enrolled(w: World, base: nat)
  {
    && (forall p, id: nat :: At(w, p, id) ==> base <= id < w.seen)
    && (forall p, q, id: nat :: At(w, p, id) && At(w, q, id) ==> p == q)
    && (forall id: nat :: base <= id < w.seen ==> Somewhere(w, id))
  }

  /** Everybody is where they were. */
  ghost predicate AllStay(w: World, n: World)
  {
    n.seen == w.seen && forall p, id: nat :: At(n, p, id) <==> At(w, p, id)
  }

  /** Whoever was in slot `i` is the last to have left, and everybody else is where they were. */
  ghost predicate OneLeaves(w: World, n: World, i: nat)
  {
    && n.seen == w.seen
    && forall p, id: nat ::
         At(n, p, id) <==> if p == Out(|w.gone|) then At(w, Slot(i), id) else p != Slot(i) && At(w, p, id)
  }

  /** A connection with the next number is at `at`, where nobody was, and everybody else is where they were. */
  ghost predicate OneJoins(w: World, n: World, at: Place)
  {
    && n.seen == w.seen + 1 && (forall id: nat :: !At(w, at, id))
    && forall p, id: nat :: At(n, p, id) <==> if p == at then id == w.seen else At(w, p, id)
  }

  lemma EnrolledStays(w: World, n: World, base: nat)
    requires Enrolled(w, base) && base <= w.seen
    requires AllStay(w, n) || (exists i: nat :: OneLeaves(w, n, i)) || (exists at :: OneJoins(w, n, at))
    ensures Enrolled(n, base)
  {
    forall id: nat | base <= id < n.seen
      ensures Somewhere(n, id)
    {
      if id < w.seen {
        assert Somewhere(w, id);
        var p :| At(w, p, id);
        if i: nat :| OneLeaves(w, n, i) {
          assert At(n, if p == Slot(i) then Out(|w.gone|) else p, id);
        } else {
          assert At(n, p, id);
        }
      } else {
        var at :| OneJoins(w, n, at);
        assert At(n, at, id);
      }
    }
  }

  /** An event at which the connection numbered `id` may leave other than by its own wish: its operation moved no bytes,
      or the next could not be asked for. */
  ghost predicate LosesIt(w: World, e: CompletionLoop.Event, id: nat)
  {
    match e
    case Accepted(_, how) => id == w.seen && how.Came? && !how.submitted
    case Finished(f, res, _, submitted) => ForSlot(f) && f.whose == id && (res <= 0 || !submitted)
    case Ticked(_) => false
  }

  /** Those that leave at an event: whoever left before is as they were, at most one more leaves, and one that is not
      done leaves only at an event that loses it. */
  ghost predicate LeavesFairly(w: World, e: CompletionLoop.Event, n: World)
  {
    && w.gone <= n.gone && |n.gone| <= |w.gone| + 1
    && (|n.gone| > |w.gone| ==>
          var last := n.gone[|w.gone|]; !last.closed ==> LosesIt(w, e, last.client.id))
  }

  /** While the loop goes on, what it listens for and its tick stay asked for. */
  ghost predicate Listens(w: World, n: World)
  {
    n.alive ==>
      w.alive && n.ring[Ticking] == w.ring[Ticking] && forall l :: n.ring[Accepting(l)] == w.ring[Accepting(l)]
  }

  lemma AskedForSlot(i: nat, c: Client)
    requires Framed(c.state)
    ensures ForSlot(FlightOf(i, c))
  {
  }

  lemma FinishedShifts(w: World, f: Flight, res: int, data: seq<byte>, submitted: bool)
    requires Sound(w) && Enabled(w, Finished(f, res, data, submitted))
    ensures
      var e := Finished(f, res, data, submitted);
      var n := Handled(w, e);
      (AllStay(w, n) || exists i: nat :: OneLeaves(w, n, i)) && LeavesFairly(w, e, n) && Listens(w, n)
  {
    hide Good, Handled, Sound, IsDone, FlightOf, Framed;
    var e := Finished(f, res, data, submitted);
    var n := Handled(w, e);
    if res > 0 {
      var now := FinishedAdvances(w, f, res, data, submitted);
      AskedForSlot(f.slot, now);
      if n.conns[f.slot].None? {
        assert OneLeaves(w, n, f.slot);
      } else {
        assert AllStay(w, n);
      }
    } else {
      FinishedFails(w, f, res, data, submitted);
      assert OneLeaves(w, n, f.slot);
    }
  }

  lemma AcceptedShifts(w: World, l: nat, how: Accept)
    requires Sound(w) && Enabled(w, Accepted(l, how))
    ensures
      var e := Accepted(l, how);
      var n := Handled(w, e);
      (AllStay(w, n) || exists at :: OneJoins(w, n, at)) && LeavesFairly(w, e, n) && Listens(w, n)
  {
    hide Good, Handled, Sound, Fresh;
    var n := Handled(w, Accepted(l, how));
    AcceptedSeats(w, l, how);
    if how.Came? && how.armed && how.prepared {
      assert OneJoins(w, n, if how.submitted then Slot(NextSlot(w)) else Out(|w.gone|));
    }
  }

  /** One event of a run. */
  lemma EventShifts(w: World, e: CompletionLoop.Event)
    requires Sound(w) && Enabled(w, e)
    ensures
      var n := Handled(w, e);
      && (AllStay(w, n) || (exists i: nat :: OneLeaves(w, n, i)) || (exists at :: OneJoins(w, n, at)))
      && LeavesFairly(w, e, n) && Listens(w, n)
  {
    hide Sound, Welcomed, Carried, Loaded, AllStay, OneLeaves, OneJoins, LeavesFairly, Listens;
    match e
    case Accepted(l, how) => AcceptedShifts(w, l, how);
    case Finished(f, res, data, submitted) => FinishedShifts(w, f, res, data, submitted);
    case Ticked(armed) => TickedShifts(w, armed);
  }

  lemma TickedShifts(w: World, armed: bool)
    requires Sound(w) && Enabled(w, Ticked(armed))
    ensures var n := Handled(w, Ticked(armed)); AllStay(w, n) && LeavesFairly(w, Ticked(armed), n) && Listens(w, n)
  {
    hide Sound;
  }

  /** Over every run, nobody is lost or doubled: each connection accepted is in one slot, or has left once; and as long
      as the loop goes on each listener's accept and the tick are asked for as they were at the start. */
  lemma {:induction false} EveryRunKeepsEveryone(w: World, events: seq<CompletionLoop.Event>, last: World, base: nat)
    requires Sound(w) && CompletionLoop.Reaches(w, events, last) && Enrolled(w, base) && base <= w.seen
    ensures Enrolled(last, base) && w.seen <= last.seen && w.gone <= last.gone && Listens(w, last)
    decreases |events|
  {
    hide Sound, Handled, Enabled, Enrolled, AllStay, OneLeaves, OneJoins;
    if events != [] {
      var n := Handled(w, events[0]);
      HandledKeeps(w, events[0]);
      EventShifts(w, events[0]);
      EnrolledStays(w, n, base);
      SeenGrows(w, n);
      EveryRunKeepsEveryone(n, events[1..], last, base);
    }
  }

  lemma SeenGrows(w: World, n: World)
    requires AllStay(w, n) || (exists i: nat :: OneLeaves(w, n, i)) || (exists at :: OneJoins(w, n, at))
    ensures w.seen <= n.seen
  {
    hide At;
  }

  lemma BegunIsEmpty(w: World)
    requires Begun(w)
    ensures Enrolled(w, w.seen)
  {
  }

  /** Over every run, a connection that left with more to do did so at an event of the run that loses it: a completion
      of its own that moved no bytes, or something that could not be asked for it. */
  lemma {:induction false} LeavesOnlyWhenLost(w: World, events: seq<CompletionLoop.Event>, last: World, d: nat)
      returns (k: nat, mid: World)
    requires Sound(w) && CompletionLoop.Reaches(w, events, last) && |w.gone| <= d < |last.gone| && !last.gone[d].closed
    ensures k < |events| && CompletionLoop.Reaches(w, events[..k], mid)
    ensures LosesIt(mid, events[k], last.gone[d].client.id)
    decreases |events|
  {
    hide Sound, Handled, Enabled, LosesIt, AllStay, OneLeaves, OneJoins, Listens;
    var n := Handled(w, events[0]);
    HandledKeeps(w, events[0]);
    EventShifts(w, events[0]);
    if d < |n.gone| {
      GoneStays(n, events[1..], last);
      k, mid := 0, w;
    } else {
      k, mid := LeavesOnlyWhenLost(n, events[1..], last, d);
      k := k + 1;
      assert events[..k][1..] == events[1..][..k - 1];
    }
  }

  lemma {:induction false} GoneStays(w: World, events: seq<CompletionLoop.Event>, last: World)
    requires Sound(w) && CompletionLoop.Reaches(w, events, last)
    ensures w.gone <= last.gone
    decreases |events|
  {
    hide Sound, Handled, Enabled, LosesIt, AllStay, OneLeaves, OneJoins, Listens;
    if events != [] {
      HandledKeeps(w, events[0]);
      EventShifts(w, events[0]);
      GoneStays(Handled(w, events[0]), events[1..], last);
    }
  }

  // ---------------------------------------------------------------------------------------------
  // Every byte of every run
  // ---------------------------------------------------------------------------------------------

  ghost function ClientAt(w: World, p: Place): Client
    requires exists id: nat :: At(w, p, id)
  {
    match p
    case Slot(i) => w.conns[i].value
    case Out(d) => w.gone[d].client
  }

  /** What an event brings the connection numbered `id`. */
  function HeardIn(e: CompletionLoop.Event, id: nat): seq<byte>
  {
    if e.Finished? && e.flight.Receiving? && e.flight.whose == id && e.res > 0 then e.data else []
  }

  /** How many of its bytes of reply an event takes. */
  function TakenIn(e: CompletionLoop.Event, id: nat): nat
  {
    if e.Finished? && e.flight.Sending? && e.flight.whose == id && e.res > 0 then e.res else 0
  }

  function Heard(events: seq<CompletionLoop.Event>, id: nat): seq<byte>
  {
    if events == [] then [] else HeardIn(events[0], id) + Heard(events[1..], id)
  }

  function TakenAll(events: seq<CompletionLoop.Event>, id: nat): nat
  {
    if events == [] then 0 else TakenIn(events[0], id) + TakenAll(events[1..], id)
  }

  /** What has arrived from connection `id` and how much has gone out to it, wherever it is; nothing while nowhere. */
  ghost function Ledger(w: World, id: nat): (seq<byte>, nat)
  {
    if Somewhere(w, id) then
      var p :| At(w, p, id);
      (ClientAt(w, p).state.trace.received, |ClientAt(w, p).state.trace.wrote|)
    else ([], 0)
  }

  lemma LedgerAt(w: World, base: nat, p: Place, id: nat)
    requires Enrolled(w, base) && At(w, p, id)
    ensures Ledger(w, id) == (ClientAt(w, p).state.trace.received, |ClientAt(w, p).state.trace.wrote|)
  {
    hide At;
    assert Somewhere(w, id);
  }

  /** A finished operation is in the account of the connection that asked for it, and in no other's. */
  lemma FinishedIsInItsAccount(w: World, e: CompletionLoop.Event, base: nat, p: Place, id: nat)
    requires Sound(w) && Enabled(w, e) && e.Finished? && Enrolled(w, base) && At(Handled(w, e), p, id)
    ensures
      var t := ClientAt(Handled(w, e), p).state.trace;
      t.received == Ledger(w, id).0 + HeardIn(e, id) && |t.wrote| == Ledger(w, id).1 + TakenIn(e, id)
  {
    hide Good, Handled, Sound, IsDone, FlightOf, Framed, Ledger;
    var f, n := e.flight, Handled(w, e);
    if e.res > 0 {
      var now := FinishedAdvances(w, f, e.res, e.data, e.submitted);
      assert At(w, Slot(f.slot), f.whose);
    } else {
      FinishedFails(w, f, e.res, e.data, e.submitted);
      assert At(w, Slot(f.slot), f.whose);
    }
    var q := if p == Out(|w.gone|) then Slot(f.slot) else p;
    assert At(w, q, id);
    LedgerAt(w, base, q, id);
  }

  lemma FreshIsBlank()
    ensures var t := Fresh().trace; t.received == [] && t.wrote == []
  {
  }

  /** An accept is in nobody's account, and a new connection's is empty. */
  lemma AcceptedIsInNone(w: World, e: CompletionLoop.Event, base: nat, p: Place, id: nat)
    requires Sound(w) && Enabled(w, e) && e.Accepted? && Enrolled(w, base) && At(Handled(w, e), p, id)
    ensures
      var t := ClientAt(Handled(w, e), p).state.trace;
      t.received == Ledger(w, id).0 && |t.wrote| == Ledger(w, id).1
  {
    hide Good, Handled, Sound, Fresh, Ledger;
    AcceptedSeats(w, e.listener, e.how);
    FreshIsBlank();
    if At(w, p, id) {
      LedgerAt(w, base, p, id);
    } else {
      NoLedger(w, base, id);
    }
  }

  lemma NoLedger(w: World, base: nat, id: nat)
    requires Enrolled(w, base) && id >= w.seen
    ensures Ledger(w, id) == ([], 0)
  {
    hide At;
  }

  /** One event: what it brings and takes is in the account of the connection it is for, and in no other's. */
  lemma EventIsInItsAccount(w: World, e: CompletionLoop.Event, base: nat, id: nat)
    requires Sound(w) && Enabled(w, e) && Enrolled(w, base) && Enrolled(Handled(w, e), base)
    requires w.seen <= Handled(w, e).seen
    ensures
      var was, now := Ledger(w, id), Ledger(Handled(w, e), id);
      now.0 == was.0 + HeardIn(e, id) && now.1 == was.1 + TakenIn(e, id)
  {
    hide Sound, Handled, At, Ledger, HeardIn, TakenIn;
    var n := Handled(w, e);
    if p :| At(n, p, id) {
      LedgerAt(n, base, p, id);
      if e.Finished? {
        FinishedIsInItsAccount(w, e, base, p, id);
      } else {
        NothingMoved(e, id, Ledger(w, id).0);
        if e.Accepted? {
          AcceptedIsInNone(w, e, base, p, id);
        } else {
          TickedIsInNone(w, e, base, p, id);
        }
      }
    } else {
      Nowhere(w, n, e, base, id);
    }
  }

  lemma NothingMoved(e: CompletionLoop.Event, id: nat, was: seq<byte>)
    requires !e.Finished?
    ensures was + HeardIn(e, id) == was && TakenIn(e, id) == 0
  {
  }

  lemma TickedIsInNone(w: World, e: CompletionLoop.Event, base: nat, p: Place, id: nat)
    requires Sound(w) && Enabled(w, e) && e.Ticked? && Enrolled(w, base) && At(Handled(w, e), p, id)
    ensures
      var t := ClientAt(Handled(w, e), p).state.trace;
      t.received == Ledger(w, id).0 && |t.wrote| == Ledger(w, id).1
  {
    hide Sound, Ledger;
    LedgerAt(w, base, p, id);
  }

  /** Nothing is brought to a connection that is nowhere. */
  lemma Nowhere(w: World, n: World, e: CompletionLoop.Event, base: nat, id: nat)
    requires Sound(w) && Enabled(w, e) && Enrolled(w, base) && Enrolled(n, base) && w.seen <= n.seen
    requires !Somewhere(n, id)
    ensures Ledger(w, id) == Ledger(n, id) == ([], 0) && HeardIn(e, id) == [] && TakenIn(e, id) == 0
  {
    hide Good, Framed;
    assert !Somewhere(w, id);
    if e.Finished? {
      HeardByItsOwner(w, e.flight);
      assert At(w, Slot(e.flight.slot), e.flight.whose);
    }
  }

  /** Over every run, what has arrived from a connection, wherever it now is, is all that the kernel read for it, in
      order; and what has gone out to it is as many bytes as the kernel sent for it. */
  lemma {:induction false} EveryByteIsInItsAccount(w: World, events: seq<CompletionLoop.Event>, last: World, base: nat,
                                                   id: nat)
    requires Sound(w) && CompletionLoop.Reaches(w, events, last) && Enrolled(w, base) && base <= w.seen
    ensures
      var was, now := Ledger(w, id), Ledger(last, id);
      now.0 == was.0 + Heard(events, id) && now.1 == was.1 + TakenAll(events, id)
    decreases |events|
  {
    hide Sound, Handled, Enabled, Enrolled, AllStay, OneLeaves, OneJoins, Ledger, HeardIn, TakenIn;
    var was := Ledger(w, id);
    if events == [] {
      assert was.0 + [] == was.0;
    } else {
      var e, n := events[0], Handled(w, events[0]);
      HandledKeeps(w, e);
      EventShifts(w, e);
      EnrolledStays(w, n, base);
      SeenGrows(w, n);
      EventIsInItsAccount(w, e, base, id);
      EveryByteIsInItsAccount(n, events[1..], last, base, id);
      assert was.0 + (HeardIn(e, id) + Heard(events[1..], id)) == was.0 + HeardIn(e, id) + Heard(events[1..], id);
    }
  }

  /** Over every run from the start, each connection has run, and been sent, the beginning of what is due for the very
      bytes the kernel read for it; all of it if it waits for more or left of its own wish; but for a line too long to
      wait for. */
  lemma EveryRunServesWhatItRead(w: World, events: seq<CompletionLoop.Event>, last: World, p: Place, id: nat)
    requires Begun(w) && Sound(w) && CompletionLoop.Reaches(w, events, last) && At(last, p, id)
    ensures
      var c, heard := ClientAt(last, p), Heard(events, id);
      var t, full := c.state.trace, Serve(c.oracle, 0, heard);
      && t.received == heard && |t.wrote| == TakenAll(events, id)
      && (Cut(c) || (t.calls <= full.calls && t.wrote <= full.reply))
      && ((if p.Slot? then !Owes(c.state) else last.gone[p.d].closed) ==>
            Cut(c) || (t.calls == full.calls && t.wrote == full.reply))
  {
    hide CompletionLoop.Reaches, Sound, Begun, Serve, Enrolled, Ledger, Cut;
    BegunIsEmpty(w);
    EveryRunKeepsEveryone(w, events, last, w.seen);
    EveryByteIsInItsAccount(w, events, last, w.seen, id);
    LedgerAt(last, w.seen, p, id);
    EveryRunServesEveryClient(w, events, last);
    StartsBlank(w, id);
    assert [] + Heard(events, id) == Heard(events, id);
  }

  lemma StartsBlank(w: World, id: nat)
    requires Begun(w)
    ensures Ledger(w, id) == ([], 0)
  {
  }
}
