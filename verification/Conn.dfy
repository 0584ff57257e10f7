/** A client connection: two buffers and the cycle between them, under a readiness loop or a completion loop. */
module Connection {
  import opened Bytes
  import opened Resp
  import opened Serving
  import opened Session
  import Parser

  /** The rest of the server, as one connection sees it: it answers that connection's commands in turn. */
  class Env {
    const oracle: Oracle
    var turn: nat

    constructor (oracle: Oracle)
      ensures this.oracle == oracle && turn == 0
    {
      this.oracle, turn := oracle, 0;
    }

    method Dispatch(args: seq<seq<byte>>) returns (a: Answer)
      modifies this
      ensures a == oracle(old(turn), args) && turn == old(turn) + 1
    {
      a := oracle(turn, args);
      turn := turn + 1;
    }
  }

  class Conn {
    var buf: seq<byte>
    var filled: nat
    var at: nat
    var out: seq<byte>
    var sent: nat
    var closing: bool
    const command: Parser.Command
    const env: Env
    ghost var trace: Trace

    ghost function Value(): State
      reads this
    {
      State(buf, filled, at, out, sent, closing, trace)
    }

    ghost predicate Valid()
      reads this, env
    {
      Good(Value(), env.oracle) && env.turn == |trace.calls|
    }

    constructor (oracle: Oracle)
      ensures Valid() && Value() == Fresh() && env.oracle == oracle && fresh(command) && fresh(env)
    {
      command := new Parser.Command();
      env := new Env(oracle);
      buf, filled, at := seq(CHUNK, _ => 0), 0, 0;
      out, sent, closing := [], 0, false;
      trace := Trace([], 0, [], [], [], None);
      new;
      FreshIsGood(env.oracle);
      assert buf == Fresh().buf;
    }

    /** Whether there is a reply the socket has not taken yet. */
    predicate Owes()
      reads this
    {
      sent < |out|
    }

    /** The kernel, or a read, puts bytes in the free part of the buffer. */
    method Deposit(data: seq<byte>)
      requires Valid() && filled + |data| <= |buf|
      modifies `buf
      ensures Valid() && Value() == Deposited(old(Value()), filled, data)
    {
      hide Good;
      GoodIsFramed(Value(), env.oracle);
      DepositedIsGood(Value(), data, env.oracle);
      buf := Splice(buf, filled, data);
    }

    /** A count of bytes arrived where the last read was told to put them; it is clamped rather than trusted. */
    method Arrive(n: nat)
      requires Valid()
      modifies `filled, `trace
      ensures Valid() && Value() == Counted(old(Value()), n)
    {
      hide Good;
      GoodIsFramed(Value(), env.oracle);
      CountedIsGood(Value(), n, env.oracle);
      var now := if |buf| < filled + n then |buf| else filled + n;
      trace := trace.(received := trace.received + buf[filled..now]);
      filled := now;
    }

    /** Bytes of the reply went out. */
    method Wrote(n: nat)
      requires Valid()
      modifies this
      ensures Valid() && Value() == Written(old(Value()), n)
    {
      hide Good;
      GoodIsFramed(Value(), env.oracle);
      WrittenIsGood(Value(), n, env.oracle);
      var now := if sent + n < |out| then sent + n else |out|;
      trace := trace.(wrote := trace.wrote + out[sent..now]);
      sent := now;
    }

    /** Make sure there is somewhere to read into. */
    method MakeRoom() returns (ok: bool)
      requires Valid()
      modifies this
      ensures Valid() && (ok <==> WithRoom(old(Value())).Some?)
      ensures ok ==> Value() == WithRoom(old(Value())).value
      ensures !ok ==> Value() == if old(at) > 0 then Compacted(old(Value())) else old(Value())
    {
      hide Good;
      GoodIsFramed(Value(), env.oracle);
      WithRoomIsGood(Value(), env.oracle);
      CompactedIsGood(Value(), env.oracle);
      if |buf| - filled >= SPARE {
        return true;
      }
      if at > 0 {
        buf := Splice(buf, 0, buf[at..filled]);
        filled := filled - at;
        at := 0;
      }
      if |buf| - filled < SPARE {
        var wanted := 2 * |buf|;
        if wanted > MAX_REQUEST {
          return false;
        }
        buf := buf + seq(|buf|, _ => 0);
      }
      return true;
    }

    /** Run every whole command in the read buffer. */
    method Execute()
      requires Valid()
      modifies this, command, env
      ensures Valid() && Value() == Executed(old(Value()), env.oracle)
    {
      hide Good, Parse, Texts, Answered, Dispatched, Refused;
      GoodIsFramed(Value(), env.oracle);
      AnsweredIsGood(Value(), env.oracle);
      RewoundIsGood(Answered(Value(), env.oracle), env.oracle);
      ghost var was := Value();
      var more := true;
      while more && !closing && |out| < MAX_REPLY
        invariant Valid() && Framed(Value())
        invariant Answered(Value(), env.oracle) == Answered(was, env.oracle)
        invariant !more ==> Value() == Answered(was, env.oracle)
        decreases filled - at, !closing, more
      {
        AnsweredOnce(Value(), env.oracle);
        more := Next();
        GoodIsFramed(Value(), env.oracle);
      }
      AnsweredOnce(Value(), env.oracle);
      if at == filled {
        at, filled := 0, 0;
      }
    }

    /** One command off the front of the unused bytes, run; or none there. */
    method Next() returns (more: bool)
      requires Valid() && Framed(Value()) && !closing
      modifies this, command, env
      ensures Valid()
      ensures var rest := Pending(old(Value()));
              && (more <==> !Parse(rest).More?)
              && (!more ==> Value() == old(Value()))
              && (Parse(rest).Wrong? ==>
                  Value() == Refused(old(Value()), Parse(rest).bad) && closing && at == old(at)
                  && filled == old(filled))
              && (Parse(rest).Done? ==>
                   && (forall i ::
                       0 <= i < |Parse(rest).args| ==> Parse(rest).args[i].at + Parse(rest).args[i].len <= |rest|)
                   && Value() == Dispatched(old(Value()), Parse(rest).used, Texts(rest, Parse(rest).args), env.oracle)
                   && at > old(at) && filled == old(filled))
    {
      hide Good, Parse, Texts;
      var rest := buf[at..filled];
      ghost var was := Value();
      var parsed := Parser.ParseInto(rest, command);
      if parsed.Err? {
        RefusedIsGood(was, env.oracle);
        out := out + Refusal(parsed.error);
        closing := true;
        trace := trace.(replied := trace.replied + Refusal(parsed.error), bad := Some(parsed.error));
        return true;
      }
      if parsed.value.None? {
        return false;
      }
      DispatchedIsGood(was, env.oracle);
      ghost var k := |trace.calls|;
      var args := Texts(rest, command.args);
      if |args| > 0 {
        var a := env.Dispatch(args);
        out := out + a.reply;
        closing := a.last;
      }
      ghost var ran := Run(env.oracle, k, args);
      assert out == was.out + ran.reply;
      trace := trace.(consumed := trace.consumed + parsed.value.value, calls := trace.calls + ran.calls,
          replied := trace.replied + ran.reply);
      at := at + parsed.value.value;
      return true;
    }

    /** Answer whatever has arrived and say what a ring should do next, in at most two passes. */
    method Step() returns (want: Want, ghost passes: nat)
      requires Valid()
      modifies this, command, env
      ensures Valid() && (Value(), want) == Stepped(old(Value()), env.oracle) && 1 <= passes <= 2
    {
      hide Good, Executed, WithRoom, Compacted;
      passes := 0;
      ghost var was := Value();
      GoodIsFramed(was, env.oracle);
      while true
        invariant Valid() && passes <= 1
        invariant passes == 0 ==> Value() == was
        invariant passes == 1 ==>
          && Owes() && sent == 0 && !Session.Owes(was) && !was.closing && was.at < was.filled
          && Value() == Executed(Emptied(was), env.oracle)
        decreases 2 - passes
      {
        passes := passes + 1;
        if Owes() {
          return Send(sent, |out| - sent), passes;
        }
        EmptiedIsGood(Value(), env.oracle);
        out, sent := [], 0;
        if closing {
          return Close, passes;
        }
        if at < filled {
          ExecutedIsGood(Value(), env.oracle);
          ExecutedSent(Value(), env.oracle);
          Execute();
          if |out| > 0 {
            continue;
          }
          if closing {
            return Close, passes;
          }
        }
        GoodIsFramed(Value(), env.oracle);
        var ok := MakeRoom();
        GoodIsFramed(Value(), env.oracle);
        if ok {
          return Recv(filled, |buf| - filled), passes;
        }
        return Close, passes;
      }
    }

    /** Write what the socket will take. What it takes at each attempt is `pushes`; it blocks after those. */
    method Flush(pushes: seq<Push>) returns (ok: bool)
      requires Valid()
      modifies this
      ensures Valid() && Framed(old(Value())) && Flow(Value(), ok) == Flushed(old(Value()), pushes)
    {
      hide Good, Written, Poured;
      ghost var was := Value();
      GoodIsFramed(was, env.oracle);
      var n, blocked := 0, false;
      assert pushes[0..] == pushes;
      while sent < |out| && n < |pushes| && !blocked
        invariant Valid() && Framed(Value()) && n <= |pushes|
        invariant !blocked ==> Poured(Value(), pushes[n..]) == Poured(was, pushes)
        invariant blocked ==> Poured(was, pushes) == Flow(Value(), true)
        decreases |pushes| - n
      {
        PouredOnce(Value(), pushes[n..]);
        assert pushes[n..][1..] == pushes[n + 1..];
        match pushes[n] {
          case Took(taken) =>
            if taken == 0 {
              return false;
            }
            Wrote(taken);
            GoodIsFramed(Value(), env.oracle);
          case Interrupted =>
          case Blocked => blocked := true;
          case Broken => return false;
        }
        n := n + 1;
      }
      PouredDone(Value(), pushes[n..]);
      if sent == |out| {
        EmptiedIsGood(Value(), env.oracle);
        out, sent := [], 0;
      } else if sent > MAX_REPLY {
        DrainedIsGood(Value(), env.oracle);
        out, sent := out[sent..], 0;
      }
      return true;
    }

    /** Read once, reporting whether the peer is still there. */
    method Fill(pull: Pull) returns (ok: bool)
      requires Valid()
      modifies this
      ensures Valid() && Framed(old(Value())) && Flow(Value(), ok) == Filled(old(Value()), pull)
    {
      hide Good, WithRoom, Arrived, Compacted, Counted, Deposited;
      GoodIsFramed(Value(), env.oracle);
      var room := MakeRoom();
      if !room {
        return false;
      }
      GoodIsFramed(Value(), env.oracle);
      match pull
      case Got(data) =>
        if data == [] {
          return false;
        }
        var read := if filled + |data| <= |buf| then data else data[..|buf| - filled];
        ArrivedIsCounted(Value(), read);
        Deposit(read);
        Arrive(|read|);
        return true;
      case NothingYet => return true;
      case Gone => return false;
    }

    /** Read what is there, answer it, and write what fits. */
    method TakeTurn(writable: bool, readable: bool, first: seq<Push>, pull: Pull, second: seq<Push>)
      returns (turn: Turn)
      requires Valid()
      modifies this, command, env
      ensures Valid() && Framed(old(Value()))
      ensures (Value(), turn) == Turned(old(Value()), writable, readable, first, pull, second, env.oracle)
    {
      hide Good, Flushed, Filled, Executed;
      GoodIsFramed(Value(), env.oracle);
      if writable {
        var ok := Flush(first);
        if !ok {
          return ToClose;
        }
      }
      if readable {
        GoodIsFramed(Value(), env.oracle);
        var there := Fill(pull);
        if !there {
          return ToClose;
        }
        GoodIsFramed(Value(), env.oracle);
        Execute();
        var ok := Flush(second);
        if !ok {
          return ToClose;
        }
      }
      if Owes() {
        return ToWrite;
      }
      return if closing then ToClose else ToRead;
    }
  }

  lemma ExecutedSent(s: State, oracle: Oracle)
    requires Good(s, oracle) && Framed(s)
    ensures Executed(s, oracle).sent == s.sent
  {
    hide Good, Answered, Parse;
    AnsweredIsGood(s, oracle);
  }

  /** Writing, one attempt at a time. */
  lemma PouredOnce(s: State, pushes: seq<Push>)
    requires Framed(s) && Session.Owes(s) && pushes != []
    ensures pushes[0].Took? ==> Framed(Written(s, pushes[0].n))
    ensures Poured(s, pushes) ==
      match pushes[0]
      case Took(n) => if n == 0 then Flow(s, false) else Poured(Written(s, n), pushes[1..])
      case Interrupted => Poured(s, pushes[1..])
      case Blocked => Flow(s, true)
      case Broken => Flow(s, false)
  {
  }

  lemma PouredDone(s: State, pushes: seq<Push>)
    requires Framed(s)
    ensures !Session.Owes(s) || pushes == [] ==> Poured(s, pushes) == Flow(s, true)
  {
  }
}
