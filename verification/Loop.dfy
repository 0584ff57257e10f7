/** The completion loop: which slot each connection is in, and what the kernel has in hand for it. */
module CompletionLoop {
  import opened Bytes
  import opened Serving
  import opened Session
  import Resp

  /** What the kernel has been asked to do and has not yet been heard to have done. The kernel carries a slot's
      number and no more; `whose` is which connection asked, for the claim that it is the one that hears. */
  datatype Flight =
    | Accepting(listener: nat)
    | Receiving(slot: nat, at: nat, len: nat, whose: nat)
    | Sending(slot: nat, at: nat, len: nat, whose: nat)
    | Ticking

  /** A connection, which of all those accepted it is, and what the server answers it. */
  datatype Client = Client(id: nat, state: State, oracle: Oracle)

  /** A connection that has left, as it left, and whether by its own wish rather than the socket's failing. */
  datatype Departed = Departed(client: Client, closed: bool)

  /** `alive` until an error ends the loop; `seen` connections so far; `gone` those that have left, as they left. */
  datatype World = World(conns: seq<Option<Client>>, free: seq<nat>, ring: multiset<Flight>, seen: nat, alive: bool,
                         gone: seq<Departed>)

  predicate ForSlot(f: Flight) { f.Receiving? || f.Sending? }

  /** The one thing to ask for a connection in slot `i`: a send while it owes, a read when it does not. */
  function FlightOf(i: nat, c: Client): Flight
    requires Framed(c.state)
  {
    var s := c.state;
    if Owes(s) then Sending(i, s.sent, |s.out| - s.sent, c.id) else Receiving(i, s.filled, |s.buf| - s.filled, c.id)
  }

  /** What asking for `want` puts in the ring. */
  function Asked(i: nat, id: nat, want: Want): Flight
    requires !want.Close?
  {
    match want
    case Recv(at, len) => Receiving(i, at, len, id)
    case Send(at, len) => Sending(i, at, len, id)
  }

  // ---------------------------------------------------------------------------------------------
  // Steps
  // ---------------------------------------------------------------------------------------------

  predicate Occupied(w: World, i: nat) { i < |w.conns| && w.conns[i].Some? }

  /** A finished operation taken for a send if the connection owes and for a read if it does not; the token does
      not say which it was. */
  function Credited(s: State, n: nat): State
    requires Framed(s)
  {
    if Owes(s) then Written(s, n) else Counted(s, n)
  }

  /** A slot given up. */
  function Discarded(w: World, i: nat, closed: bool): World
  {
    if Occupied(w, i) then
      w.(conns := w.conns[i := None], free := w.free + [i], gone := w.gone + [Departed(w.conns[i].value, closed)])
    else w
  }

  /** The connection in slot `i` goes on from `c`: it is dropped, or what it wants is asked for. */
  function Onward(w: World, i: nat, c: Client, submitted: bool): World
    requires Occupied(w, i) && Framed(c.state)
  {
    var (r, want) := Stepped(c.state, c.oracle);
    var next := w.(conns := w.conns[i := Some(c.(state := r))]);
    if want.Close? then Discarded(next, i, true)
    else if !submitted then Discarded(next, i, false).(alive := false)
    else next.(ring := next.ring + multiset{Asked(i, c.id, want)})
  }

  /** A read or a write of slot `i` is over. */
  function Carried(w: World, i: nat, res: int, submitted: bool): World
    requires Occupied(w, i) ==> Framed(w.conns[i].value.state)
  {
    if res <= 0 then Discarded(w, i, false)
    else if !Occupied(w, i) then w
    else
      var c := w.conns[i].value;
      Onward(w, i, c.(state := Credited(c.state, res)), submitted)
  }

  /** A connection put in the slot last freed, or in a new one. */
  function Placed(w: World, c: Client): (World, nat)
    requires w.free != [] ==> w.free[|w.free| - 1] < |w.conns|
  {
    if w.free != [] then
      var i := w.free[|w.free| - 1];
      (w.(conns := w.conns[i := Some(c)], free := w.free[..|w.free| - 1], seen := w.seen + 1), i)
    else
      (w.(conns := w.conns + [Some(c)], seen := w.seen + 1), |w.conns|)
  }

  function Seated(w: World, oracle: Oracle, submitted: bool): World
    requires w.free != [] ==> w.free[|w.free| - 1] < |w.conns|
  {
    var c := Client(w.seen, Fresh(), oracle);
    var (n, i) := Placed(w, c);
    Onward(n, i, c, submitted)
  }

  /** How an accept and what follows it may go. */
  datatype Accept = Retry(armed: bool) | Dead | Came(armed: bool, prepared: bool, oracle: Oracle, submitted: bool)

  function Welcomed(w: World, listener: nat, how: Accept): World
    requires w.free != [] ==> w.free[|w.free| - 1] < |w.conns|
  {
    var armed := w.(ring := w.ring + multiset{Accepting(listener)});
    match how
    case Retry(ok) => if ok then armed else w.(alive := false)
    case Dead => w.(alive := false)
    case Came(ok, prepared, oracle, submitted) =>
      if !ok then w.(alive := false)
      else if !prepared then armed
      else Seated(armed, oracle, submitted)
  }

  /** What the kernel reports: an accept, a read or a write of some bytes or none, or the tick. */
  datatype Event =
    | Accepted(listener: nat, how: Accept)
    | Finished(flight: Flight, res: int, data: seq<byte>, submitted: bool)
    | Ticked(armed: bool)

  /** The kernel finishes only what it was asked, and moves no more bytes than it was allowed. */
  ghost predicate Enabled(w: World, e: Event)
  {
    && w.alive
    && match e
       case Accepted(l, _) => Accepting(l) in w.ring
       case Finished(f, res, data, _) =>
         && f in w.ring && ForSlot(f) && res <= f.len
         && (f.Receiving? && res > 0 ==> |data| == res)
         && (f.Sending? || res <= 0 ==> data == [])
       case Ticked(_) => Ticking in w.ring
  }

  /** The slot's buffer with what the kernel put in it. */
  function Loaded(w: World, f: Flight, data: seq<byte>): World
    requires ForSlot(f) && Occupied(w, f.slot)
  {
    var c := w.conns[f.slot].value;
    if f.Receiving? && f.at + |data| <= |c.state.buf| then
      w.(conns := w.conns[f.slot := Some(c.(state := Deposited(c.state, f.at, data)))])
    else w
  }

  ghost function Handled(w: World, e: Event): World
    requires Enabled(w, e) && Sound(w)
  {
    match e
    case Accepted(l, how) =>
      LastFreeIsASlot(w);
      Welcomed(w.(ring := w.ring - multiset{Accepting(l)}), l, how)
    case Finished(f, res, data, submitted) =>
      FlightIsItsSlots(w, f);
      Carried(Loaded(w.(ring := w.ring - multiset{f}), f, data), f.slot, res, submitted)
    case Ticked(armed) =>
      if armed then w else w.(ring := w.ring - multiset{Ticking}, alive := false)
  }

  // ---------------------------------------------------------------------------------------------
  // What every step keeps
  // ---------------------------------------------------------------------------------------------

  /** A connection that waits for bytes has nothing whole unanswered, and room for them. */
  ghost predicate Waits(s: State)
    requires Framed(s)
  {
    !s.closing && Resp.Parse(Pending(s)).More? && |s.buf| - s.filled >= SPARE
  }

  /** A connection that is done owes nothing, and its last reply is out or what is left is one request, not whole, too
      large to hold. */
  ghost predicate IsDone(s: State)
  {
    Framed(s) && !Owes(s) && (s.closing || (Resp.Parse(Pending(s)).More? && |Pending(s)| > MAX_REQUEST - SPARE))
  }

  /** A connection in good order with exactly the one operation its own state calls for in the kernel's hands. */
  ghost predicate Manned(w: World, i: nat)
    requires Occupied(w, i)
  {
    var c := w.conns[i].value;
    Good(c.state, c.oracle) && Framed(c.state) && w.ring[FlightOf(i, c)] == 1 && (!Owes(c.state) ==> Waits(c.state))
  }

  ghost predicate AllGood(gone: seq<Departed>)
  {
    forall i :: 0 <= i < |gone| ==>
      Good(gone[i].client.state, gone[i].client.oracle) && (gone[i].closed ==> IsDone(gone[i].client.state))
  }

  ghost predicate Sound(w: World)
  {
    && (forall i: nat :: Occupied(w, i) ==> Manned(w, i))
    && (forall f :: f in w.ring && ForSlot(f) ==>
        Occupied(w, f.slot) && Framed(w.conns[f.slot].value.state) && f == FlightOf(f.slot, w.conns[f.slot].value))
    && (forall i: nat :: i in w.free <==> i < |w.conns| && w.conns[i].None?)
    && Distinct(w.free)
    && (forall l :: w.ring[Accepting(l)] <= 1) && w.ring[Ticking] <= 1
    && AllGood(w.gone)
  }

  lemma LastFreeIsASlot(w: World)
    requires Sound(w)
    ensures w.free != [] ==> w.free[|w.free| - 1] < |w.conns|
  {
    if w.free != [] {
      assert w.free[|w.free| - 1] in w.free;
    }
  }

  lemma FlightIsItsSlots(w: World, f: Flight)
    requires Sound(w) && f in w.ring && ForSlot(f)
    ensures Occupied(w, f.slot) && Manned(w, f.slot) && f == FlightOf(f.slot, w.conns[f.slot].value)
  {
  }

  /** In order but for slot `i`, whose connection the kernel has nothing in hand for. */
  ghost predicate SoundBut(w: World, i: nat)
  {
    && Occupied(w, i)
    && (forall j: nat :: j != i && Occupied(w, j) ==> Manned(w, j))
    && (forall f :: f in w.ring && ForSlot(f) ==>
        f.slot != i && Occupied(w, f.slot) && Framed(w.conns[f.slot].value.state)
        && f == FlightOf(f.slot, w.conns[f.slot].value))
    && (forall j: nat :: j in w.free <==> j < |w.conns| && w.conns[j].None?)
    && Distinct(w.free)
    && (forall l :: w.ring[Accepting(l)] <= 1) && w.ring[Ticking] <= 1
    && AllGood(w.gone)
  }

  lemma ReplacedKeeps(w: World, i: nat, c: Client)
    requires SoundBut(w, i)
    ensures SoundBut(w.(conns := w.conns[i := Some(c)]), i)
  {
    hide Good, Framed, FlightOf;
    var n := w.(conns := w.conns[i := Some(c)]);
    forall j: nat | j != i && Occupied(n, j)
      ensures Manned(n, j)
    {
      assert Occupied(w, j) && Manned(w, j);
    }
    forall j: nat
      ensures j in n.free <==> j < |n.conns| && n.conns[j].None?
    {
      assert j in w.free <==> j < |w.conns| && w.conns[j].None?;
    }
  }

  lemma DiscardedKeeps(w: World, i: nat, closed: bool)
    requires SoundBut(w, i) && Good(w.conns[i].value.state, w.conns[i].value.oracle)
    requires closed ==> IsDone(w.conns[i].value.state)
    ensures Sound(Discarded(w, i, closed))
  {
    hide Good, Framed, FlightOf, Waits, IsDone;
    var n := Discarded(w, i, closed);
    forall j: nat | Occupied(n, j)
      ensures Manned(n, j)
    {
      assert j != i && Occupied(w, j) && Manned(w, j);
    }
    forall j: nat
      ensures j in n.free <==> j < |n.conns| && n.conns[j].None?
    {
      assert j in w.free <==> j < |w.conns| && w.conns[j].None?;
    }
    assert i !in w.free;
  }

  lemma SubmittedKeeps(w: World, i: nat)
    requires SoundBut(w, i) && Framed(w.conns[i].value.state) && Good(w.conns[i].value.state, w.conns[i].value.oracle)
    requires !Owes(w.conns[i].value.state) ==> Waits(w.conns[i].value.state)
    ensures Sound(w.(ring := w.ring + multiset{FlightOf(i, w.conns[i].value)}))
  {
    hide Good, Framed;
    var f := FlightOf(i, w.conns[i].value);
    var n := w.(ring := w.ring + multiset{f});
    assert f !in w.ring;
    forall j: nat | Occupied(n, j)
      ensures Manned(n, j)
    {
      if j != i {
        assert Occupied(w, j) && Manned(w, j);
      }
    }
  }

  /** Whatever a connection in good order goes on to want, the loop is in order afterwards. */
  lemma OnwardKeeps(w: World, i: nat, c: Client, submitted: bool)
    requires SoundBut(w, i) && Good(c.state, c.oracle) && Framed(c.state)
    ensures Sound(Onward(w, i, c, submitted))
  {
    hide Good, Sound, SoundBut, Stepped, Discarded, Resp.Parse;
    SteppedIsGood(c.state, c.oracle);
    var (r, want) := Stepped(c.state, c.oracle);
    GoodIsFramed(r, c.oracle);
    SlotIsThere(w, i);
    var next := w.(conns := w.conns[i := Some(c.(state := r))]);
    ReplacedKeeps(w, i, c.(state := r));
    if want.Close? {
      DiscardedKeeps(next, i, true);
    } else {
      DiscardedKeeps(next, i, false);
      assert Asked(i, c.id, want) == FlightOf(i, c.(state := r));
      SubmittedKeeps(next, i);
      StoppedKeeps(Discarded(next, i, false));
    }
  }

  lemma SlotIsThere(w: World, i: nat)
    requires SoundBut(w, i)
    ensures Occupied(w, i)
  {
  }

  lemma StoppedKeeps(w: World)
    requires Sound(w)
    ensures Sound(w.(alive := false))
  {
    hide Good, Framed, FlightOf;
    var n := w.(alive := false);
    forall j: nat | Occupied(n, j)
      ensures Manned(n, j)
    {
      assert Occupied(w, j) && Manned(w, j);
    }
  }

  lemma TakenOut(w: World, f: Flight)
    requires Sound(w) && f in w.ring && ForSlot(f)
    ensures SoundBut(w.(ring := w.ring - multiset{f}), f.slot)
  {
    hide Good, Framed;
    FlightIsItsSlots(w, f);
    var n := w.(ring := w.ring - multiset{f});
    assert w.ring[f] == 1 && n.ring[f] == 0;
    forall j: nat | j != f.slot && Occupied(n, j)
      ensures Manned(n, j)
    {
      assert Occupied(w, j) && Manned(w, j);
    }
  }

  /** A completion is credited to the buffer it was asked for: a read's bytes to what has arrived, a write's to
      what has gone out. */
  lemma CreditedRightly(c: Client, i: nat, res: nat, data: seq<byte>)
    requires Good(c.state, c.oracle) && Framed(c.state)
    requires var f := FlightOf(i, c);
             res <= f.len && (if f.Receiving? then |data| == res else data == [])
    ensures var s, oracle := c.state, c.oracle;
            Owes(s) ==> Credited(s, res) == Written(s, res) && Good(Credited(s, res), oracle)
    ensures var s, oracle := c.state, c.oracle;
            !Owes(s) ==>
      && Framed(Deposited(s, s.filled, data))
      && Credited(Deposited(s, s.filled, data), res) == Arrived(s, data)
      && Good(Arrived(s, data), oracle)
  {
    hide Good;
    var s, oracle := c.state, c.oracle;
    if Owes(s) {
      WrittenIsGood(s, res, oracle);
    } else {
      ArrivedIsGood(s, data, oracle);
      var d := Deposited(s, s.filled, data);
      assert d.buf[s.filled..s.filled + res] == data;
    }
  }

  lemma FinishedKeeps(w: World, f: Flight, res: int, data: seq<byte>, submitted: bool)
    requires Sound(w) && Enabled(w, Finished(f, res, data, submitted))
    ensures Sound(Handled(w, Finished(f, res, data, submitted)))
  {
    hide Good, Sound, SoundBut, Stepped, Framed, Credited, Onward, Discarded, Deposited;
    FlightIsItsSlots(w, f);
    TakenOut(w, f);
    var out := w.(ring := w.ring - multiset{f});
    var c := w.conns[f.slot].value;
    GoodIsFramed(c.state, c.oracle);
    RoomToRead(c.state);
    var full := Loaded(out, f, data);
    if res <= 0 && f.Receiving? {
      NothingDeposited(c.state, f.at);
    }
    ReplacedKeeps(out, f.slot, if f.Receiving? then c.(state := Deposited(c.state, f.at, data)) else c);
    assert out.conns[f.slot := Some(c)] == out.conns;
    assert SoundBut(full, f.slot);
    SlotIsThere(full, f.slot);
    if res <= 0 {
      DiscardedKeeps(full, f.slot, false);
    } else {
      CreditedRightly(c, f.slot, res, data);
      var d := full.conns[f.slot].value;
      GoodIsFramed(Credited(d.state, res), c.oracle);
      OnwardKeeps(full, f.slot, d.(state := Credited(d.state, res)), submitted);
    }
  }

  lemma NothingDeposited(s: State, at: nat)
    requires at <= |s.buf|
    ensures Deposited(s, at, []) == s
  {
    assert Splice(s.buf, at, []) == s.buf;
  }

  lemma RoomToRead(s: State)
    requires Framed(s)
    ensures s.filled <= |s.buf|
  {
  }

  lemma PlacedKeeps(w: World, c: Client)
    requires Sound(w)
    ensures w.free != [] ==> w.free[|w.free| - 1] < |w.conns|
    ensures var (n, i) := Placed(w, c); SoundBut(n, i) && n.conns[i] == Some(c)
  {
    hide Good, Framed, FlightOf;
    LastFreeIsASlot(w);
    var (n, i) := Placed(w, c);
    assert w.free != [] ==> i in w.free;
    assert !Occupied(w, i);
    assert w.free != [] ==> w.free == n.free + [i];
    forall j: nat | j != i && Occupied(n, j)
      ensures Manned(n, j)
    {
      assert Occupied(w, j) && Manned(w, j);
    }
    forall j: nat
      ensures j in n.free <==> j < |n.conns| && n.conns[j].None?
    {
      assert j in w.free <==> j < |w.conns| && w.conns[j].None?;
      FreeAfter(w.free, n.free, i, j);
    }
  }

  lemma FreeAfter(free: seq<nat>, left: seq<nat>, i: nat, j: nat)
    requires Distinct(free) && (free == left + [i] || (left == free && i !in free))
    ensures j in left <==> j in free && j != i
  {
    if free == left + [i] {
      forall k | 0 <= k < |left|
        ensures left[k] != i
      {
        assert free[k] != free[|left|];
      }
    }
  }

  lemma RingKeeps(w: World, ring: multiset<Flight>, alive: bool)
    requires Sound(w)
    requires forall f :: ForSlot(f) ==> ring[f] == w.ring[f]
    requires (forall l :: ring[Accepting(l)] <= 1) && ring[Ticking] <= 1
    ensures Sound(w.(ring := ring, alive := alive))
  {
    hide Good, Framed;
    var n := w.(ring := ring, alive := alive);
    forall j: nat | Occupied(n, j)
      ensures Manned(n, j)
    {
      assert Occupied(w, j) && Manned(w, j);
    }
    forall f | f in n.ring && ForSlot(f)
      ensures Occupied(n, f.slot) && Framed(n.conns[f.slot].value.state) && f == FlightOf(f.slot, n.conns[f.slot].value)
    {
      assert f in w.ring;
    }
  }

  lemma SeatedKeeps(w: World, oracle: Oracle, submitted: bool)
    requires Sound(w)
    ensures w.free != [] ==> w.free[|w.free| - 1] < |w.conns|
    ensures Sound(Seated(w, oracle, submitted))
  {
    hide Good, Sound, SoundBut, Framed, Onward, Placed, Fresh;
    LastFreeIsASlot(w);
    FreshIsGood(oracle);
    var c := Client(w.seen, Fresh(), oracle);
    PlacedKeeps(w, c);
    var (n, i) := Placed(w, c);
    SlotIsThere(n, i);
    OnwardKeeps(n, i, c, submitted);
  }

  lemma AcceptedKeeps(w: World, l: nat, how: Accept)
    requires Sound(w) && Enabled(w, Accepted(l, how))
    ensures Sound(Handled(w, Accepted(l, how)))
  {
    hide Seated;
    var gone := w.ring - multiset{Accepting(l)};
    var out := w.(ring := gone);
    LastFreeIsASlot(w);
    assert w.ring[Accepting(l)] <= 1;
    assert gone + multiset{Accepting(l)} == w.ring;
    RingKeeps(w, gone, false);
    if how.Came? && how.armed && how.prepared {
      SeatedKeeps(out.(ring := gone + multiset{Accepting(l)}), how.oracle, how.submitted);
    }
  }

  lemma HandledKeeps(w: World, e: Event)
    requires Sound(w) && Enabled(w, e)
    ensures Sound(Handled(w, e))
  {
    hide Sound, Welcomed, Carried, Loaded;
    match e
    case Accepted(l, how) => AcceptedKeeps(w, l, how);
    case Finished(f, res, data, submitted) => FinishedKeeps(w, f, res, data, submitted);
    case Ticked(armed) => TickedKeeps(w);
  }

  lemma TickedKeeps(w: World)
    requires Sound(w) && Ticking in w.ring
    ensures Sound(w.(ring := w.ring - multiset{Ticking}, alive := false))
  {
    RingKeeps(w, w.ring - multiset{Ticking}, false);
  }

  /** A loop just started: no connections, one accept a listener, and the tick. */
  ghost predicate Begun(w: World)
  {
    && w.conns == [] && w.free == [] && w.gone == []
    && (forall f :: ForSlot(f) ==> f !in w.ring) && (forall l :: w.ring[Accepting(l)] <= 1) && w.ring[Ticking] <= 1
  }

  lemma BegunIsSound(w: World)
    requires Begun(w)
    ensures Sound(w)
  {
  }

  ghost predicate Reaches(w: World, events: seq<Event>, last: World)
    requires Sound(w)
    decreases |events|
  {
    if events == [] then last == w
    else Enabled(w, events[0]) && (HandledKeeps(w, events[0]); Reaches(Handled(w, events[0]), events[1..], last))
  }

  /** Over every run of the loop: each occupied slot has exactly one operation in flight, the one its own state
      calls for; a free slot has none and is once in the free list; and every connection's bytes are accounted
      for. */
  lemma {:induction false} EveryRunIsSound(w: World, events: seq<Event>, last: World)
    requires Sound(w) && Reaches(w, events, last)
    ensures Sound(last)
    decreases |events|
  {
    hide Sound, Handled, Enabled;
    if events != [] {
      HandledKeeps(w, events[0]);
      EveryRunIsSound(Handled(w, events[0]), events[1..], last);
    }
  }

  /** What finishes is heard by the connection that asked for it, as what it asked for. */
  lemma HeardByItsOwner(w: World, f: Flight)
    requires Sound(w) && f in w.ring && ForSlot(f)
    ensures Occupied(w, f.slot) && w.conns[f.slot].value.id == f.whose
    ensures f.Sending? <==> Owes(w.conns[f.slot].value.state)
    ensures w.ring[f] == 1
    ensures forall g :: g in w.ring && ForSlot(g) && g.slot == f.slot ==> g == f
    ensures f.slot !in w.free
  {
    hide Good;
  }

  /** What a connection has run and been sent is the beginning of what its bytes are served. */
  ghost predicate ServedSoFar(c: Client)
  {
    var t, full := c.state.trace, Serve(c.oracle, 0, c.state.trace.received);
    t.calls <= full.calls && t.wrote <= full.reply
  }

  /** What a connection has run and been sent is exactly what its bytes are served. */
  ghost predicate ServedInFull(c: Client)
  {
    var t, full := c.state.trace, Serve(c.oracle, 0, c.state.trace.received);
    t.calls == full.calls && t.wrote == full.reply
  }

  /** A connection stopped at a line too long to wait for. */
  ghost predicate Cut(c: Client)
  {
    var t := c.state.trace;
    t.consumed <= |t.received| && LongLine(t.received[t.consumed..])
  }

  lemma GoodIsServed(c: Client)
    requires Good(c.state, c.oracle)
    ensures Cut(c) || ServedSoFar(c)
    ensures Framed(c.state) && !Owes(c.state) && Waits(c.state) ==> ServedInFull(c)
    ensures IsDone(c.state) ==> Cut(c) || ServedInFull(c)
  {
    hide Serve, Judged, Resp.Parse;
    var t := c.state.trace;
    WroteIsReplied(c.state, c.oracle);
    if t.bad == Some(Resp.NoNewline) {
      JudgedIsWrong(t.received[t.consumed..], Resp.NoNewline);
    } else {
      DoneIsServed(c.state, c.oracle);
    }
  }

  /** Over every run of the loop: each connection in a slot and each that has left has run and been sent the beginning
      of what its bytes are served; one with a read in the kernel's hands, and one that left of its own wish, exactly
      that; but for a line too long to wait for. */
  lemma EveryRunServesEveryClient(w: World, events: seq<Event>, last: World)
    requires Begun(w) && Sound(w) && Reaches(w, events, last)
    ensures forall i: nat :: Occupied(last, i) ==> Cut(last.conns[i].value) || ServedSoFar(last.conns[i].value)
    ensures forall i: nat :: Occupied(last, i) && !Owes(last.conns[i].value.state) ==> ServedInFull(last.conns[i].value)
    ensures forall i :: 0 <= i < |last.gone| ==> Cut(last.gone[i].client) || ServedSoFar(last.gone[i].client)
    ensures forall i :: 0 <= i < |last.gone| && last.gone[i].closed ==>
                          Cut(last.gone[i].client) || ServedInFull(last.gone[i].client)
  {
    hide Reaches, ServedSoFar, ServedInFull, Cut, Good, IsDone, Waits;
    EveryRunIsSound(w, events, last);
    forall i: nat | Occupied(last, i)
      ensures Cut(last.conns[i].value) || ServedSoFar(last.conns[i].value)
      ensures !Owes(last.conns[i].value.state) ==> ServedInFull(last.conns[i].value)
    {
      assert Manned(last, i);
      GoodIsServed(last.conns[i].value);
    }
    forall i | 0 <= i < |last.gone|
      ensures Cut(last.gone[i].client) || ServedSoFar(last.gone[i].client)
      ensures last.gone[i].closed ==> Cut(last.gone[i].client) || ServedInFull(last.gone[i].client)
    {
      GoodIsServed(last.gone[i].client);
    }
  }

  // ---------------------------------------------------------------------------------------------
  // The loop's own state
  // ---------------------------------------------------------------------------------------------

  class Worker {
    var conns: seq<Option<Client>>
    var free: seq<nat>
    var seen: nat
    var alive: bool
    ghost var ring: multiset<Flight>
    ghost var gone: seq<Departed>

    ghost function Value(): World
      reads this
    {
      World(conns, free, ring, seen, alive, gone)
    }

    constructor (listeners: nat)
      ensures Begun(Value()) && Sound(Value()) && alive
      ensures forall l: nat :: l < listeners <==> Accepting(l) in ring
    {
      conns, free, seen, alive := [], [], 0, true;
      gone := [];
      ring := multiset(set l: nat | l < listeners :: Accepting(l)) + multiset{Ticking};
      new;
      BegunIsSound(Value());
    }

    /** Forget the connection in `at` and put the slot back. */
    method Discard(at: nat, ghost closed: bool)
      modifies this
      ensures Value() == Discarded(old(Value()), at, closed)
    {
      if at < |conns| && conns[at].Some? {
        gone := gone + [Departed(conns[at].value, closed)];
        conns := conns[at := None];
        free := free + [at];
      }
    }

    /** Ask the kernel for what the connection in `at` wants, which may fail. */
    method Submit(at: nat, id: nat, want: Want, room: bool) returns (ok: bool)
      requires !want.Close?
      modifies `ring
      ensures ok == room && ring == if room then old(ring) + multiset{Asked(at, id, want)} else old(ring)
    {
      ok := room;
      if ok {
        ring := ring + multiset{Asked(at, id, want)};
      }
    }

    /** Take what a read or a write completed and submit whatever the connection wants next. */
    method Carry(at: nat, res: int, room: bool)
      requires Occupied(Value(), at) ==> Framed(conns[at].value.state)
      modifies this
      ensures Value() == Carried(old(Value()), at, res, room)
    {
      hide Stepped;
      if res <= 0 {
        Discard(at, false);
        return;
      }
      if at >= |conns| || conns[at].None? {
        return;
      }
      var c := conns[at].value;
      var state := if Owes(c.state) then Written(c.state, res) else Counted(c.state, res);
      GoOn(at, c.(state := state), room);
    }

    /** Step the connection in `at`, then drop it or submit for it. */
    method GoOn(at: nat, c: Client, room: bool)
      requires Occupied(Value(), at) && Framed(c.state)
      modifies this
      ensures Value() == Onward(old(Value()), at, c, room)
    {
      hide Stepped;
      var (state, want) := Stepped(c.state, c.oracle);
      conns := conns[at := Some(c.(state := state))];
      if want.Close? {
        Discard(at, true);
        return;
      }
      var ok := Submit(at, c.id, want, room);
      if !ok {
        Discard(at, false);
        alive := false;
      }
    }

    /** Take the connection an accept produced, and ask for the next one. */
    method Take(listener: nat, how: Accept)
      requires free != [] ==> free[|free| - 1] < |conns|
      modifies this
      ensures Value() == Welcomed(old(Value()), listener, how)
    {
      hide Stepped, Onward, Fresh;
      if how.Dead? || !how.armed {
        alive := false;
        return;
      }
      ring := ring + multiset{Accepting(listener)};
      if how.Retry? || !how.prepared {
        return;
      }
      var c := Client(seen, Fresh(), how.oracle);
      FreshIsGood(how.oracle);
      seen := seen + 1;
      var at := |conns|;
      if |free| > 0 {
        at := free[|free| - 1];
        free := free[..|free| - 1];
        conns := conns[at := Some(c)];
      } else {
        conns := conns + [Some(c)];
      }
      GoOn(at, c, how.submitted);
    }
  }
}
