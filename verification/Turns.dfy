/** What a turn of the readiness loop comes to, exactly, told by what the socket did. */
module Turns {
  import opened Bytes
  import opened Resp
  import opened Serving
  import opened Session

  // ---------------------------------------------------------------------------------------------
  // Writing
  // ---------------------------------------------------------------------------------------------

  /** An attempt to write after which there is another. */
  predicate GoesOn(push: Push) { push.Interrupted? || (push.Took? && push.n > 0) }

  /** The attempts before the first that is the last whatever is owed. */
  function Steady(pushes: seq<Push>): (front: seq<Push>)
    ensures front <= pushes && (forall i :: 0 <= i < |front| ==> GoesOn(front[i]))
    ensures front == pushes || !GoesOn(pushes[|front|])
  {
    if pushes == [] || !GoesOn(pushes[0]) then [] else [pushes[0]] + Steady(pushes[1..])
  }

  /** How many bytes some attempts take between them. */
  function Taken(pushes: seq<Push>): nat
  {
    if pushes == [] then 0 else (if pushes[0].Took? then pushes[0].n else 0) + Taken(pushes[1..])
  }

  /** How many of `owed` bytes go out. */
  function Went(owed: nat, pushes: seq<Push>): nat
  {
    if Taken(Steady(pushes)) < owed then Taken(Steady(pushes)) else owed
  }

  /** Bytes are owed still when the socket fails or takes nought. */
  predicate Breaks(owed: nat, pushes: seq<Push>)
  {
    var front := Steady(pushes);
    Taken(front) < owed && front < pushes && (pushes[|front|].Broken? || pushes[|front|] == Took(0))
  }

  lemma SteadyFrom(push: Push, rest: seq<Push>)
    ensures Steady([push] + rest) == if GoesOn(push) then [push] + Steady(rest) else []
    ensures GoesOn(push) ==> Taken(Steady([push] + rest)) == Taken([push]) + Taken(Steady(rest))
  {
    assert ([push] + rest)[1..] == rest && [push][1..] == [];
    if GoesOn(push) {
      assert ([push] + Steady(rest))[1..] == Steady(rest);
    }
  }

  /** One attempt, and then the others, with what is then owed. */
  lemma BreaksFrom(owed: nat, push: Push, rest: seq<Push>)
    requires owed > 0
    ensures
      var n, pushes := if push.Took? then push.n else 0, [push] + rest;
      && (!GoesOn(push) ==> Went(owed, pushes) == 0 && (Breaks(owed, pushes) <==> !push.Blocked?))
      && (GoesOn(push) && n >= owed ==> Went(owed, pushes) == owed && !Breaks(owed, pushes))
      && (GoesOn(push) && n < owed ==>
            Went(owed, pushes) == n + Went(owed - n, rest) && (Breaks(owed, pushes) <==> Breaks(owed - n, rest)))
  {
    hide Steady;
    SteadyFrom(push, rest);
    SteadyIs(rest);
    var pushes := [push] + rest;
    assert Taken([push]) == if push.Took? then push.n else 0 by {
      assert [push][1..] == [];
    }
    if GoesOn(push) {
      assert pushes[1..] == rest;
      assert Steady(rest) < rest ==> pushes[|Steady(pushes)|] == rest[|Steady(rest)|];
    }
  }

  lemma SteadyIs(pushes: seq<Push>)
    ensures Steady(pushes) <= pushes
  {
  }

  /** The replies out as far as `sent`. */
  function OutTo(s: State, sent: nat): State
    requires s.sent <= sent <= |s.out|
  {
    s.(sent := sent, trace := s.trace.(wrote := s.trace.wrote + s.out[s.sent..sent]))
  }

  lemma OutOn(s: State, mid: nat, sent: nat)
    requires s.sent <= mid <= sent <= |s.out|
    ensures OutTo(OutTo(s, mid), sent) == OutTo(s, sent)
  {
    assert s.out[s.sent..mid] + s.out[mid..sent] == s.out[s.sent..sent];
    assert s.trace.wrote + s.out[s.sent..mid] + s.out[mid..sent]
        == s.trace.wrote + (s.out[s.sent..mid] + s.out[mid..sent]);
  }

  lemma OutNowhere(s: State)
    requires s.sent <= |s.out|
    ensures OutTo(s, s.sent) == s
  {
    assert s.trace.wrote + s.out[s.sent..s.sent] == s.trace.wrote;
  }

  lemma WrittenIsOut(s: State, n: nat)
    requires Framed(s)
    ensures Written(s, n) == OutTo(s, if s.sent + n < |s.out| then s.sent + n else |s.out|)
  {
  }

  /** How much goes out, and whether the socket still serves, whatever each attempt comes to. */
  lemma {:induction false} PouredExactly(s: State, pushes: seq<Push>)
    requires Framed(s)
    ensures
      var p, owed := Poured(s, pushes), |s.out| - s.sent;
      && (p.ok <==> !Breaks(owed, pushes))
      && Went(owed, pushes) <= owed && p.state == OutTo(s, s.sent + Went(owed, pushes))
    decreases |pushes|
  {
    hide Went, Breaks, OutTo, Written;
    var owed := |s.out| - s.sent;
    OutNowhere(s);
    if owed == 0 || pushes == [] {
      NothingGoes(owed, pushes);
    } else {
      var push, rest := pushes[0], pushes[1..];
      assert pushes == [push] + rest;
      BreaksFrom(owed, push, rest);
      if GoesOn(push) {
        PouredNext(s, push, rest);
        var n := if push.Took? then push.n else 0;
        var mid := if n < owed then s.sent + n else |s.out|;
        OutParts(s, mid);
        PouredExactly(OutTo(s, mid), rest);
        NothingGoes(0, rest);
        OutOn(s, mid, mid + Went(|s.out| - mid, rest));
      }
    }
  }

  lemma OutParts(s: State, sent: nat)
    requires Framed(s) && s.sent <= sent <= |s.out|
    ensures var r := OutTo(s, sent); Framed(r) && r.out == s.out && r.sent == sent
  {
  }

  lemma PouredNext(s: State, push: Push, rest: seq<Push>)
    requires Framed(s) && Owes(s) && GoesOn(push)
    ensures
      var n, owed := if push.Took? then push.n else 0, |s.out| - s.sent;
      var next := if n < owed then OutTo(s, s.sent + n) else OutTo(s, |s.out|);
      Poured(s, [push] + rest) == Poured(next, rest)
  {
    hide Poured, Written, OutTo;
    OutNowhere(s);
    if push.Took? {
      WrittenIsOut(s, push.n);
    }
    PouredFrom(s, push, rest);
  }

  lemma PouredFrom(s: State, push: Push, rest: seq<Push>)
    requires Framed(s) && Owes(s) && GoesOn(push)
    ensures Framed(if push.Took? then Written(s, push.n) else s)
    ensures Poured(s, [push] + rest) == Poured(if push.Took? then Written(s, push.n) else s, rest)
  {
    assert ([push] + rest)[1..] == rest;
  }

  lemma NothingGoes(owed: nat, pushes: seq<Push>)
    requires owed == 0 || pushes == []
    ensures Went(owed, pushes) == 0 && !Breaks(owed, pushes)
  {
  }

  /** A write keeps what is owed next to what has gone out, and drops what has gone out when that is all there was or
      more than the ceiling. */
  lemma FlushedExactly(s: State, pushes: seq<Push>)
    requires Framed(s)
    ensures
      var f, owed := Flushed(s, pushes), |s.out| - s.sent;
      var sent := s.sent + Went(owed, pushes);
      && (f.ok <==> !Breaks(owed, pushes)) && sent <= |s.out|
      && f.state.trace == s.trace.(wrote := s.trace.wrote + s.out[s.sent..sent])
      && f.state == s.(out := f.state.out, sent := f.state.sent, trace := f.state.trace)
      && if f.ok && (sent == |s.out| || sent > MAX_REPLY) then f.state.out == s.out[sent..] && f.state.sent == 0
         else f.state.out == s.out && f.state.sent == sent
  {
    hide Poured, Went, Breaks;
    PouredExactly(s, pushes);
  }

  // ---------------------------------------------------------------------------------------------
  // Reading
  // ---------------------------------------------------------------------------------------------

  /** A read that ends the connection: nobody is there, or there is too much unused to make room beside. */
  predicate Shuts(s: State, pull: Pull)
    requires Framed(s)
  {
    pull.Gone? || pull == Got([]) || |Pending(s)| > MAX_REQUEST - SPARE
  }

  /** A read brings `came`: all there was, or as much as there was room for, which is never less than SPARE bytes. */
  ghost predicate Brings(s: State, pull: Pull, came: seq<byte>, r: State)
    requires Framed(s) && Framed(r)
  {
    && (if pull.Got? then came <= pull.data && (came == pull.data || (|came| >= SPARE && r.filled == |r.buf|))
        else came == [])
    && r.trace == s.trace.(received := s.trace.received + came) && Pending(r) == Pending(s) + came
    && r.out == s.out && r.sent == s.sent && r.closing == s.closing
  }

  lemma ArrivedBrings(s: State, data: seq<byte>, oracle: Oracle)
    requires Good(s, oracle) && |s.buf| - s.filled >= SPARE
    ensures Framed(s) && Brings(s, Got(data), ThatFit(s, data), Arrived(s, ThatFit(s, data)))
  {
    hide Good, Splice;
    GoodIsFramed(s, oracle);
    var fit := ThatFit(s, data);
    SplicedSlices(s.buf, s.at, s.filled, fit);
    SpliceLength(s.buf, s.filled, fit);
  }

  lemma NothingBrought(s: State, pull: Pull)
    requires Framed(s) && !pull.Got?
    ensures Brings(s, pull, [], s)
  {
    assert s.trace.received + [] == s.trace.received;
  }

  lemma BringsSame(s: State, w: State, pull: Pull, came: seq<byte>, r: State)
    requires Framed(s) && Framed(w) && Framed(r) && Brings(w, pull, came, r)
    requires Pending(w) == Pending(s) && w.out == s.out && w.sent == s.sent
    requires w.closing == s.closing && w.trace == s.trace
    ensures Brings(s, pull, came, r)
  {
  }

  /** A read goes on exactly when nothing shuts the connection, and then every byte it brought has arrived after those
      unused, and nothing else has changed; a read that does not go on brings nothing. */
  lemma FilledExactly(s: State, pull: Pull, oracle: Oracle) returns (came: seq<byte>)
    requires Good(s, oracle)
    ensures Framed(s) && (Filled(s, pull).ok <==> !Shuts(s, pull))
    ensures
      var r := Filled(s, pull).state;
      if Shuts(s, pull) then came == [] && r.trace == s.trace && Pending(r) == Pending(s) else Brings(s, pull, came, r)
  {
    hide Good, WithRoom, Brings, Arrived, ThatFit, Compacted;
    GoodIsFramed(s, oracle);
    WithRoomIsGood(s, oracle);
    CompactedParts(s);
    came := [];
    if WithRoom(s).Some? {
      var w := WithRoom(s).value;
      GoodIsFramed(w, oracle);
      if !Shuts(s, pull) {
        if pull.Got? {
          came := ThatFit(w, pull.data);
          ArrivedBrings(w, pull.data, oracle);
        } else {
          NothingBrought(w, pull);
        }
        BringsSame(s, w, pull, came, Filled(s, pull).state);
      }
    }
  }

  // ---------------------------------------------------------------------------------------------
  // A turn
  // ---------------------------------------------------------------------------------------------

  /** The bytes of reply not yet out. */
  function Owed(s: State): int { |s.trace.replied| - |s.trace.wrote| }

  lemma OwedIs(s: State, oracle: Oracle)
    requires Good(s, oracle)
    ensures Framed(s) && Owed(s) == |s.out| - s.sent
  {
    hide InStep;
  }

  /** The first write of a turn, and its read, if it is woken to them. */
  lemma InHandExactly(s: State, writable: bool, readable: bool, first: seq<Push>, pull: Pull, oracle: Oracle)
      returns (came: seq<byte>)
    requires Good(s, oracle)
    ensures Framed(s) && Owed(s) >= 0
    ensures
      var g, went := InHand(s, writable, readable, first, pull), if writable then Went(Owed(s), first) else 0;
      var broke := writable && Breaks(Owed(s), first);
      && (g.ok <==> !broke && !(readable && Shuts(s, pull)))
      && |g.state.trace.wrote| == |s.trace.wrote| + went && s.trace.wrote <= g.state.trace.wrote
      && g.state.trace == s.trace.(wrote := g.state.trace.wrote, received := s.trace.received + came)
      && Pending(g.state) == Pending(s) + came && (!g.ok || !readable ==> came == [])
      && (g.ok && readable && pull.Got? ==>
            came <= pull.data && (came == pull.data || (|came| >= SPARE && g.state.filled == |g.state.buf|)))
      && (!pull.Got? ==> came == [])
  {
    hide Good, Went, Breaks, Flushed, Filled, Pending;
    OwedIs(s, oracle);
    FlushedExactly(s, first);
    FlushedIsGood(s, first, oracle);
    came := [];
    var f := if writable then Flushed(s, first) else Flow(s, true);
    assert s.trace.received + [] == s.trace.received && Pending(s) + [] == Pending(s);
    if f.ok && readable {
      came := FilledExactly(f.state, pull, oracle);
    }
  }

  lemma {:induction false} RepliesOnly(s: State, oracle: Oracle)
    requires Framed(s)
    ensures
      var x := Answered(s, oracle).trace;
      x.received == s.trace.received && x.wrote == s.trace.wrote && s.trace.replied <= x.replied
    decreases s.filled - s.at, !s.closing
  {
    hide Parse, Texts, Run, Refusal;
    if !s.closing && |s.out| < MAX_REPLY {
      var rest := Pending(s);
      if Parse(rest).Done? {
        DoneIsInside(rest);
        RepliesOnly(Dispatched(s, Parse(rest).used, Texts(rest, Parse(rest).args), oracle), oracle);
      } else if Parse(rest).Wrong? {
        RepliesOnly(Refused(s, Parse(rest).bad), oracle);
      }
    }
  }

  /** The second half of a turn woken to read. */
  lemma AnswersAndWrites(s: State, second: seq<Push>, oracle: Oracle)
    requires Good(s, oracle)
    ensures Framed(s) && Framed(Executed(s, oracle))
    ensures
      var h := Flushed(Executed(s, oracle), second);
      var owed := |h.state.trace.replied| - |s.trace.wrote|;
      && owed >= 0 && (h.ok <==> !Breaks(owed, second))
      && |h.state.trace.wrote| == |s.trace.wrote| + Went(owed, second)
      && s.trace.wrote <= h.state.trace.wrote && h.state.trace.received == s.trace.received
      && h.state.trace.replied == Executed(s, oracle).trace.replied && s.trace.replied <= h.state.trace.replied
  {
    hide Good, Went, Breaks, Flushed, Answered, Parse;
    ExecutedIsGood(s, oracle);
    RepliesOnly(s, oracle);
    var x := Executed(s, oracle);
    OwedIs(x, oracle);
    FlushedExactly(x, second);
  }

  /** What a turn answers, told by what the socket did and what had come and gone. It ends the connection if and only if
      a write broke while bytes were owed, the read found nobody there or too much unused to make room beside, or the
      last reply is in and all of it out; otherwise it waits to write if and only if bytes are owed, and else to read.
      Everything that was read has arrived, and as much has gone out as the socket took. */
  lemma TurnedExactly(s: State, writable: bool, readable: bool, first: seq<Push>, pull: Pull, second: seq<Push>,
                      oracle: Oracle) returns (came: seq<byte>)
    requires Good(s, oracle)
    ensures Framed(s) && Owed(s) >= 0
    ensures
      var (r, turn) := Turned(s, writable, readable, first, pull, second, oracle);
      var broke, went := writable && Breaks(Owed(s), first), if writable then Went(Owed(s), first) else 0;
      var shut := readable && Shuts(s, pull);
      var left := |r.trace.replied| - |s.trace.wrote| - went;
      && left >= 0
      && var again := if !broke && !shut && readable then second else [];
      && (turn.ToClose? <==> broke || shut || Breaks(left, again) || (r.closing && Owed(r) == 0))
      && (turn.ToWrite? <==> !broke && !shut && !Breaks(left, again) && Owed(r) > 0)
      && |r.trace.wrote| == |s.trace.wrote| + went + Went(left, again)
      && s.trace.wrote <= r.trace.wrote <= r.trace.replied && s.trace.replied <= r.trace.replied
      && r.trace.received == s.trace.received + came
      && (if !broke && !shut && readable && pull.Got? then came <= pull.data && (came == pull.data || |came| >= SPARE)
          else came == [])
  {
    hide Good, Went, Breaks, Flushed, InHand, Executed, Shuts;
    came := InHandExactly(s, writable, readable, first, pull, oracle);
    InHandIsGood(s, writable, readable, first, pull, oracle);
    var g := InHand(s, writable, readable, first, pull);
    var (r, turn) := Turned(s, writable, readable, first, pull, second, oracle);
    TurnedIsGood(s, writable, readable, first, pull, second, oracle);
    OwedIs(r, oracle);
    WroteIsReplied(r, oracle);
    if g.ok && readable {
      AnswersAndWrites(g.state, second, oracle);
    } else {
      NothingGoes(|r.trace.replied| - |g.state.trace.wrote|, []);
    }
  }
}
