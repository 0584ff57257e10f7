/** One client's two buffers as values, with the history of what went through them. */
module Session {
  import opened Bytes
  import opened Resp
  import opened Serving
  import Decimal

  const CHUNK := 16 * 1024
  const SPARE := 4 * 1024
  const MAX_REQUEST := 16 * 1024 * 1024
  const MAX_REPLY := 1024 * 1024

  /** What has gone through a connection: every byte that arrived, how many of them are used up, the commands
      run, every byte of reply, those the socket took, and the framing error that ended it if one did. */
  datatype Trace = Trace(
    received: seq<byte>,
    consumed: nat,
    calls: seq<seq<seq<byte>>>,
    replied: seq<byte>,
    wrote: seq<byte>,
    bad: Option<Bad>)

  /** The read buffer, how much of it has arrived and how much of that is used up; the replies and how much
      of them the socket took; and whether the last reply is in. */
  datatype State = State(buf: seq<byte>, filled: nat, at: nat, out: seq<byte>, sent: nat, closing: bool, trace: Trace)

  /** What a connection wants done for it next. */
  datatype Want = Recv(at: nat, len: nat) | Send(at: nat, len: nat) | Close

  // ---------------------------------------------------------------------------------------------
  // Steps
  // ---------------------------------------------------------------------------------------------

  predicate Framed(s: State)
  {
    s.at <= s.filled <= |s.buf| && s.sent <= |s.out|
  }

  function Pending(s: State): (bytes: seq<byte>)
    requires Framed(s)
  {
    s.buf[s.at..s.filled]
  }

  predicate Owes(s: State) { s.sent < |s.out| }

  /** The size a read buffer starts at, doubled at most ten times. */
  predicate Sized(n: nat)
  {
    n in {CHUNK, 2 * CHUNK, 4 * CHUNK, 8 * CHUNK, 16 * CHUNK, 32 * CHUNK, 64 * CHUNK, 128 * CHUNK, 256 * CHUNK,
        512 * CHUNK, 1024 * CHUNK}
  }

  /** Bytes that came off the socket into the free part of the buffer. */
  function Arrived(s: State, data: seq<byte>): State
    requires Framed(s) && s.filled + |data| <= |s.buf|
  {
    s.(buf := Splice(s.buf, s.filled, data), filled := s.filled + |data|,
        trace := s.trace.(received := s.trace.received + data))
  }

  /** Bytes put somewhere in the read buffer, before anybody hears of them. */
  function Deposited(s: State, at: nat, data: seq<byte>): State
    requires at + |data| <= |s.buf|
  {
    s.(buf := Splice(s.buf, at, data))
  }

  /** A count of bytes that arrived, clamped to the buffer rather than trusted. */
  function Counted(s: State, n: nat): State
    requires Framed(s)
  {
    var filled := if s.filled + n < |s.buf| then s.filled + n else |s.buf|;
    s.(filled := filled, trace := s.trace.(received := s.trace.received + s.buf[s.filled..filled]))
  }

  /** Bytes of reply the socket took. */
  function Written(s: State, n: nat): State
    requires Framed(s)
  {
    var sent := if s.sent + n < |s.out| then s.sent + n else |s.out|;
    s.(sent := sent, trace := s.trace.(wrote := s.trace.wrote + s.out[s.sent..sent]))
  }

  /** The reply buffer, emptied once all of it is out. */
  function Emptied(s: State): State
  {
    s.(out := [], sent := 0)
  }

  /** The reply buffer, its written part dropped. */
  function Drained(s: State): State
    requires Framed(s)
  {
    s.(out := s.out[s.sent..], sent := 0)
  }

  /** The unused bytes moved to the front. */
  function Compacted(s: State): State
    requires Framed(s)
  {
    s.(buf := Splice(s.buf, 0, Pending(s)), filled := s.filled - s.at, at := 0)
  }

  function Grown(s: State): State
  {
    s.(buf := s.buf + seq(|s.buf|, _ => 0))
  }

  /** A buffer with everything used is filled from the front again. */
  function Rewound(s: State): State
  {
    if s.at == s.filled then s.(at := 0, filled := 0) else s
  }

  /** Room for a read: compacting first, growing only if that was not enough, or not at all. */
  function WithRoom(s: State): Option<State>
    requires Framed(s)
  {
    if |s.buf| - s.filled >= SPARE then Some(s)
    else
      var c := if s.at > 0 then Compacted(s) else s;
      if |c.buf| - c.filled >= SPARE then Some(c)
      else if 2 * |c.buf| > MAX_REQUEST then None
      else Some(Grown(c))
  }

  /** One whole command answered. */
  function Dispatched(s: State, used: nat, args: seq<seq<byte>>, oracle: Oracle): State
  {
    var a := Run(oracle, |s.trace.calls|, args);
    s.(at := s.at + used, out := s.out + a.reply, closing := a.last,
       trace := s.trace.(consumed := s.trace.consumed + used, calls := s.trace.calls + a.calls,
           replied := s.trace.replied + a.reply))
  }

  /** Framing found wrong. */
  function Refused(s: State, bad: Bad): State
  {
    s.(out := s.out + Refusal(bad), closing := true,
       trace := s.trace.(replied := s.trace.replied + Refusal(bad), bad := Some(bad)))
  }

  /** Whole commands answered one after another, until none is left, one is the last, or too much is owed. */
  function Answered(s: State, oracle: Oracle): (r: State)
    requires Framed(s)
    ensures Framed(r)
    decreases s.filled - s.at, !s.closing
  {
    if s.closing || |s.out| >= MAX_REPLY then s
    else
      match Parse(Pending(s))
      case More => s
      case Wrong(bad) => Answered(Refused(s, bad), oracle)
      case Done(used, spans) =>
        DoneIsInside(Pending(s));
        Answered(Dispatched(s, used, Texts(Pending(s), spans), oracle), oracle)
  }

  function Executed(s: State, oracle: Oracle): State
    requires Framed(s)
  {
    Rewound(Answered(s, oracle))
  }

  /** What a connection does of its own accord, and what it then wants. */
  function Stepped(s: State, oracle: Oracle): (State, Want)
    requires Framed(s)
  {
    if Owes(s) then (s, Send(s.sent, |s.out| - s.sent))
    else
      var e := Emptied(s);
      if e.closing then (e, Close)
      else
        var x := if e.at < e.filled then Executed(e, oracle) else e;
        if Owes(x) then (x, Send(0, |x.out|))
        else if x.closing then (x, Close)
        else
          match WithRoom(x)
          case Some(r) => (r, Recv(r.filled, |r.buf| - r.filled))
          case None => (if x.at > 0 then Compacted(x) else x, Close)
  }

  // ---------------------------------------------------------------------------------------------
  // What every step keeps
  // ---------------------------------------------------------------------------------------------

  /** A framing error was found in what had arrived of the unused bytes at some point. */
  ghost predicate Judged(rest: seq<byte>, bad: Bad)
  {
    exists m: nat :: m <= |rest| && Parse(rest[..m]) == Wrong(bad)
  }

  /** The commands run and the replies given are those of the bytes used up. */
  ghost predicate InStep(t: Trace, closing: bool, oracle: Oracle)
  {
    && t.consumed <= |t.received|
    && var r := Serve(oracle, 0, t.received[..t.consumed]);
    && r.used == t.consumed && r.calls == t.calls && r.bad.None?
    && (t.bad.None? ==> r.reply == t.replied && r.closing == closing)
    && (t.bad.Some? ==> closing && !r.closing && t.replied == r.reply + Refusal(t.bad.value)
                        && Judged(t.received[t.consumed..], t.bad.value))
  }

  /** No byte lost, none twice: those used and those still in the buffer are those that arrived, and those
      written and those still owed are the replies to the commands used. */
  ghost predicate Good(s: State, oracle: Oracle)
  {
    && Framed(s) && Sized(|s.buf|)
    && InStep(s.trace, s.closing, oracle)
    && Pending(s) == s.trace.received[s.trace.consumed..]
    && s.trace.wrote + s.out[s.sent..] == s.trace.replied
  }

  // ---------------------------------------------------------------------------------------------
  // Steps that only move bytes
  // ---------------------------------------------------------------------------------------------

  lemma JudgedStays(rest: seq<byte>, more: seq<byte>, bad: Bad)
    requires Judged(rest, bad)
    ensures Judged(rest + more, bad)
  {
    hide Parse;
    var m: nat :| m <= |rest| && Parse(rest[..m]) == Wrong(bad);
    assert (rest + more)[..m] == rest[..m];
  }

  /** What lies before and after a place, once bytes are written there. */
  lemma SplicedSlices(buf: seq<byte>, at: nat, filled: nat, data: seq<byte>)
    requires at <= filled && filled + |data| <= |buf|
    ensures Splice(buf, filled, data)[at..filled] == buf[at..filled]
    ensures Splice(buf, filled, data)[at..filled + |data|] == buf[at..filled] + data
  {
  }

  lemma AppendedSlices(received: seq<byte>, consumed: nat, data: seq<byte>)
    requires consumed <= |received|
    ensures (received + data)[..consumed] == received[..consumed]
    ensures (received + data)[consumed..] == received[consumed..] + data
  {
  }

  lemma ArrivedIsGood(s: State, data: seq<byte>, oracle: Oracle)
    requires Good(s, oracle) && s.filled + |data| <= |s.buf|
    ensures Good(Arrived(s, data), oracle)
  {
    hide Serve, Judged, Splice;
    var t := s.trace;
    AppendedSlices(t.received, t.consumed, data);
    SplicedSlices(s.buf, s.at, s.filled, data);
    SpliceLength(s.buf, s.filled, data);
    if t.bad.Some? {
      JudgedStays(t.received[t.consumed..], data, t.bad.value);
    }
  }

  lemma SpliceLength(buf: seq<byte>, at: nat, data: seq<byte>)
    requires at + |data| <= |buf|
    ensures |Splice(buf, at, data)| == |buf|
  {
  }

  /** Bytes put in the free part of the buffer and then counted have arrived. */
  lemma ArrivedIsCounted(s: State, data: seq<byte>)
    requires Framed(s) && s.filled + |data| <= |s.buf|
    ensures Framed(Deposited(s, s.filled, data)) && Counted(Deposited(s, s.filled, data), |data|) == Arrived(s, data)
  {
    assert Deposited(s, s.filled, data).buf[s.filled..s.filled + |data|] == data;
  }

  /** Putting bytes in the free part of the buffer changes nothing that has arrived. */
  lemma DepositedIsGood(s: State, data: seq<byte>, oracle: Oracle)
    requires Good(s, oracle) && s.filled + |data| <= |s.buf|
    ensures Good(Deposited(s, s.filled, data), oracle) && Pending(Deposited(s, s.filled, data)) == Pending(s)
  {
    hide InStep, Splice;
    SpliceLength(s.buf, s.filled, data);
    SplicedSlices(s.buf, s.at, s.filled, data);
  }

  /** Whatever count is reported, what is then taken to have arrived is what is in the buffer. */
  lemma CountedIsGood(s: State, n: nat, oracle: Oracle)
    requires Good(s, oracle)
    ensures
      var c := Counted(s, n);
      && Good(c, oracle) && s.trace.received <= c.trace.received
      && |c.trace.received| - |s.trace.received| == if n < |s.buf| - s.filled then n else |s.buf| - s.filled
  {
    hide Good;
    GoodIsFramed(s, oracle);
    var filled := Counted(s, n).filled;
    var data := s.buf[s.filled..filled];
    ArrivedIsGood(s, data, oracle);
    assert Splice(s.buf, s.filled, data) == s.buf;
  }

  lemma WrittenIsGood(s: State, n: nat, oracle: Oracle)
    requires Good(s, oracle)
    ensures Good(Written(s, n), oracle) && (s.sent + n < |s.out| <==> Owes(Written(s, n)))
    ensures
      |Written(s, n).trace.wrote| - |s.trace.wrote| == if n < |s.out| - s.sent then n else |s.out| - s.sent
  {
    hide Serve, Judged;
    var sent := Written(s, n).sent;
    assert s.out[s.sent..] == s.out[s.sent..sent] + s.out[sent..];
    assert s.trace.wrote + (s.out[s.sent..sent] + s.out[sent..]) == s.trace.wrote + s.out[s.sent..sent] + s.out[sent..];
  }

  lemma EmptiedIsGood(s: State, oracle: Oracle)
    requires Good(s, oracle) && !Owes(s)
    ensures Good(Emptied(s), oracle)
  {
    hide InStep;
    assert s.out[s.sent..] == [];
  }

  lemma DrainedIsGood(s: State, oracle: Oracle)
    requires Good(s, oracle)
    ensures Good(Drained(s), oracle)
  {
    hide InStep;
    assert Drained(s).out[0..] == s.out[s.sent..];
  }

  lemma CompactedIsGood(s: State, oracle: Oracle)
    requires Good(s, oracle)
    ensures Good(Compacted(s), oracle)
  {
    hide InStep;
  }

  lemma GrownIsGood(s: State, oracle: Oracle)
    requires Good(s, oracle) && 2 * |s.buf| <= MAX_REQUEST
    ensures Good(Grown(s), oracle) && |Grown(s).buf| == 2 * |s.buf|
  {
    hide InStep;
    assert Grown(s).buf[s.at..s.filled] == s.buf[s.at..s.filled];
  }

  lemma RewoundIsGood(s: State, oracle: Oracle)
    requires Good(s, oracle)
    ensures Good(Rewound(s), oracle) && Pending(Rewound(s)) == Pending(s)
  {
    hide InStep;
  }

  /** There is room for a read exactly when the unused bytes are not too many, and making it keeps them all. */
  lemma WithRoomIsGood(s: State, oracle: Oracle)
    requires Good(s, oracle)
    ensures WithRoom(s).None? <==> |Pending(s)| > MAX_REQUEST - SPARE
    ensures WithRoom(s).Some? ==>
      var r := WithRoom(s).value;
      && Good(r, oracle) && Pending(r) == Pending(s) && |r.buf| - r.filled >= SPARE
      && r.out == s.out && r.sent == s.sent && r.closing == s.closing && r.trace == s.trace
  {
    hide Good, Compacted, Grown;
    GoodIsFramed(s, oracle);
    GoodIsSized(s, oracle);
    CompactedIsGood(s, oracle);
    CompactedParts(s);
    var c := if s.at > 0 then Compacted(s) else s;
    if 2 * |c.buf| <= MAX_REQUEST {
      GrownIsGood(c, oracle);
      GrownParts(c);
    }
  }

  lemma GoodIsSized(s: State, oracle: Oracle)
    requires Good(s, oracle)
    ensures CHUNK <= |s.buf| <= MAX_REQUEST && (2 * |s.buf| > MAX_REQUEST ==> |s.buf| == MAX_REQUEST)
  {
    hide InStep;
  }

  lemma CompactedParts(s: State)
    requires Framed(s)
    ensures
      var c := Compacted(s);
      && Framed(c) && Pending(c) == Pending(s) && |c.buf| == |s.buf| && c.filled == |Pending(s)|
      && c.out == s.out && c.sent == s.sent && c.closing == s.closing && c.trace == s.trace
  {
  }

  lemma GrownParts(s: State)
    requires Framed(s)
    ensures
      var g := Grown(s);
      && Framed(g) && Pending(g) == Pending(s) && |g.buf| == 2 * |s.buf| && g.filled == s.filled
      && g.out == s.out && g.sent == s.sent && g.closing == s.closing && g.trace == s.trace
  {
    assert Grown(s).buf[s.at..s.filled] == s.buf[s.at..s.filled];
  }

  /** Nothing moves while there is room as it is; and the buffer doubles only when moving the unused bytes to its front
      would not be enough. */
  lemma RoomIsMade(s: State)
    requires Framed(s) && WithRoom(s).Some?
    ensures
      var r := WithRoom(s).value;
      && (|s.buf| - s.filled >= SPARE ==> r == s)
      && |r.buf| == (if |s.buf| - s.filled >= SPARE || |s.buf| - |Pending(s)| >= SPARE then |s.buf| else 2 * |s.buf|)
  {
  }

  // ---------------------------------------------------------------------------------------------
  // Steps that answer
  // ---------------------------------------------------------------------------------------------

  /** A stream cut where what is used ends, and again where the next command does. */
  lemma CutAt(received: seq<byte>, consumed: nat, used: nat)
    requires consumed + used <= |received|
    ensures
      var p, rest := received[..consumed], received[consumed..];
      var b := rest[..used];
      b + rest[used..] == rest && p[|p|..] + b == b && p + b == received[..consumed + used] && b[used..] == []
  {
  }

  lemma OneMoreServed(t: Trace, used: nat, args: seq<seq<byte>>, oracle: Oracle)
    requires InStep(t, false, oracle)
    requires Parse(t.received[t.consumed..]).Done? && Parse(t.received[t.consumed..]).used == used
    requires var rest := t.received[t.consumed..];
             forall i :: 0 <= i < |Parse(rest).args| ==> Parse(rest).args[i].at + Parse(rest).args[i].len <= |rest|
    requires args == Texts(t.received[t.consumed..], Parse(t.received[t.consumed..]).args)
    ensures used <= |t.received| - t.consumed
    ensures
      var a := Run(oracle, |t.calls|, args);
      InStep(t.(consumed := t.consumed + used, calls := t.calls + a.calls, replied := t.replied + a.reply), a.last,
          oracle)
  {
    hide Parse, Texts, Serve, After, Run, Judged;
    var p, rest := t.received[..t.consumed], t.received[t.consumed..];
    DoneIsInside(rest);
    var b := rest[..used];
    EnoughIsDone(rest, used);
    CutAt(t.received, t.consumed, used);
    DoneWithMore(b, rest[used..]);
    ServeGoesOn(oracle, 0, p, b);
    ServeOne(oracle, |t.calls|, b);
    ServeNothing(oracle, |t.calls| + |Run(oracle, |t.calls|, args).calls|);
    var a := Run(oracle, |t.calls|, args);
    AfterParts(used, a.calls, a.reply, Served(0, [], [], false, None));
    AfterParts(t.consumed, t.calls, t.replied, Serve(oracle, |t.calls|, b));
  }

  lemma ServeNothing(oracle: Oracle, k: nat)
    ensures Serve(oracle, k, []) == Served(0, [], [], false, None)
  {
    NothingToParse();
  }

  lemma DispatchedIsGood(s: State, oracle: Oracle)
    requires Good(s, oracle) && !s.closing && Parse(Pending(s)).Done?
    ensures 0 < Parse(Pending(s)).used <= |Pending(s)|
    ensures forall i :: 0 <= i < |Parse(Pending(s)).args| ==>
        Parse(Pending(s)).args[i].at + Parse(Pending(s)).args[i].len <= |Pending(s)|
    ensures Good(Dispatched(s, Parse(Pending(s)).used, Texts(Pending(s), Parse(Pending(s)).args), oracle), oracle)
  {
    hide Parse, Texts, Serve, Run, Judged, InStep;
    DoneIsInside(Pending(s));
    NotYetBad(s.trace, oracle);
    var used, args := Parse(Pending(s)).used, Texts(Pending(s), Parse(Pending(s)).args);
    OneMoreServed(s.trace, used, args, oracle);
    var a := Run(oracle, |s.trace.calls|, args);
    var d := Dispatched(s, used, args, oracle);
    assert Pending(d) == Pending(s)[used..];
    assert d.out[s.sent..] == s.out[s.sent..] + a.reply;
    assert s.trace.wrote + (s.out[s.sent..] + a.reply) == s.trace.wrote + s.out[s.sent..] + a.reply;
  }

  lemma NotYetBad(t: Trace, oracle: Oracle)
    requires InStep(t, false, oracle)
    ensures t.bad.None? && t.consumed <= |t.received|
  {
  }

  lemma RefusedIsGood(s: State, oracle: Oracle)
    requires Good(s, oracle) && !s.closing && Parse(Pending(s)).Wrong?
    ensures Good(Refused(s, Parse(Pending(s)).bad), oracle)
  {
    hide Parse, Serve, Refusal;
    var bad := Parse(Pending(s)).bad;
    var rest := s.trace.received[s.trace.consumed..];
    assert rest[..|rest|] == rest;
    assert Judged(rest, bad);
    var r := Refused(s, bad);
    assert r.out[s.sent..] == s.out[s.sent..] + Refusal(bad);
    assert s.trace.wrote + (s.out[s.sent..] + Refusal(bad)) == s.trace.wrote + s.out[s.sent..] + Refusal(bad);
  }

  /** Answering keeps every byte accounted for, and stops only when there is nothing whole left, the last reply
      is in, or the ceiling is met. */
  lemma {:induction false} AnsweredIsGood(s: State, oracle: Oracle)
    requires Good(s, oracle)
    ensures
      var r := Answered(s, oracle);
      && Good(r, oracle)
      && (r.closing || |r.out| >= MAX_REPLY || Parse(Pending(r)).More?)
      && r.buf == s.buf && r.sent == s.sent && s.out <= r.out && r.trace.received == s.trace.received
    decreases s.filled - s.at, !s.closing
  {
    hide Parse, Texts, Good, Dispatched, Refused;
    AnsweredOnce(s, oracle);
    if !s.closing && |s.out| < MAX_REPLY {
      var rest := Pending(s);
      if Parse(rest).Done? {
        DispatchedIsGood(s, oracle);
        var d := Dispatched(s, Parse(rest).used, Texts(rest, Parse(rest).args), oracle);
        DispatchedParts(s, Parse(rest).used, Texts(rest, Parse(rest).args), oracle);
        AnsweredIsGood(d, oracle);
      } else if Parse(rest).Wrong? {
        RefusedIsGood(s, oracle);
        RefusedParts(s, Parse(rest).bad);
        AnsweredIsGood(Refused(s, Parse(rest).bad), oracle);
      }
    }
  }

  lemma GoodIsFramed(s: State, oracle: Oracle)
    requires Good(s, oracle)
    ensures Framed(s)
  {
  }

  lemma DispatchedParts(s: State, used: nat, args: seq<seq<byte>>, oracle: Oracle)
    ensures
      var d := Dispatched(s, used, args, oracle);
      && d.at == s.at + used && d.filled == s.filled && d.buf == s.buf && d.sent == s.sent && s.out <= d.out
      && d.trace.received == s.trace.received
  {
  }

  lemma RefusedParts(s: State, bad: Bad)
    ensures
      var d := Refused(s, bad);
      && d.at == s.at && d.filled == s.filled && d.buf == s.buf && d.sent == s.sent && s.out <= d.out && d.closing
      && d.trace.received == s.trace.received
  {
  }

  /** Answering, one command at a time. */
  lemma AnsweredOnce(s: State, oracle: Oracle)
    requires Good(s, oracle)
    ensures Framed(s)
    ensures s.closing || |s.out| >= MAX_REPLY ==> Answered(s, oracle) == s
    ensures !s.closing && |s.out| < MAX_REPLY ==>
      var rest := Pending(s);
      && (Parse(rest).More? ==> Answered(s, oracle) == s)
      && (Parse(rest).Wrong? ==>
          Framed(Refused(s, Parse(rest).bad)) && Answered(s, oracle) == Answered(Refused(s, Parse(rest).bad), oracle))
      && (Parse(rest).Done? ==>
           && (forall i :: 0 <= i < |Parse(rest).args| ==> Parse(rest).args[i].at + Parse(rest).args[i].len <= |rest|)
           && 0 < Parse(rest).used <= |rest|
           && var d := Dispatched(s, Parse(rest).used, Texts(rest, Parse(rest).args), oracle);
           Framed(d) && Answered(s, oracle) == Answered(d, oracle))
  {
    hide Parse, Texts;
    GoodIsFramed(s, oracle);
    if Parse(Pending(s)).Done? {
      DoneIsInside(Pending(s));
    }
  }

  /** What a connection wants is what it should: a send only of bytes that are owed; a read only when nothing is
      owed and nothing whole is left unanswered, with room for it; an end only when nothing is owed and either
      the last reply is out or what is left is one request, not whole, too large to hold. */
  lemma SteppedIsGood(s: State, oracle: Oracle)
    requires Good(s, oracle)
    ensures
      var (r, want) := Stepped(s, oracle);
      && Good(r, oracle) && r.trace.received == s.trace.received && r.trace.wrote == s.trace.wrote
      && match want
         case Send(at, len) => Owes(r) && at == r.sent && len == |r.out| - r.sent
         case Recv(at, len) =>
           && !Owes(r) && !r.closing && Parse(Pending(r)).More?
           && at == r.filled && len == |r.buf| - r.filled && len >= SPARE
         case Close => !Owes(r) && (r.closing || (Parse(Pending(r)).More? && |Pending(r)| > MAX_REQUEST - SPARE))
  {
    hide Parse, Good, Answered, WithRoom, Compacted;
    GoodIsFramed(s, oracle);
    if !Owes(s) {
      EmptiedIsGood(s, oracle);
      var e := Emptied(s);
      if !e.closing {
        var x := e;
        if e.at < e.filled {
          AnsweredIsGood(e, oracle);
          WroteStays(e, oracle);
          var a := Answered(e, oracle);
          RewoundIsGood(a, oracle);
          x := Rewound(a);
        } else {
          assert Pending(e) == [];
          NothingToParse();
        }
        if !Owes(x) && !x.closing {
          GoodIsFramed(x, oracle);
          WithRoomIsGood(x, oracle);
          CompactedIsGood(x, oracle);
          CompactedParts(x);
        }
      }
    }
  }

  lemma {:induction false} WroteStays(s: State, oracle: Oracle)
    requires Framed(s)
    ensures Answered(s, oracle).trace.wrote == s.trace.wrote
    decreases s.filled - s.at, !s.closing
  {
    hide Parse, Texts;
    if !s.closing && |s.out| < MAX_REPLY {
      var rest := Pending(s);
      if Parse(rest).Done? {
        DoneIsInside(rest);
        WroteStays(Dispatched(s, Parse(rest).used, Texts(rest, Parse(rest).args), oracle), oracle);
      } else if Parse(rest).Wrong? {
        WroteStays(Refused(s, Parse(rest).bad), oracle);
      }
    }
  }

  // ---------------------------------------------------------------------------------------------
  // What the client sees
  // ---------------------------------------------------------------------------------------------

  /** Whatever has been done is the beginning of what the whole stream is served, and all of it once nothing
      whole is left or the connection is ending; but for a line too long to wait for. */
  lemma DoneIsServed(s: State, oracle: Oracle)
    requires Good(s, oracle) && s.trace.bad != Some(NoNewline)
    ensures
      var t, full := s.trace, Serve(oracle, 0, s.trace.received);
      && t.calls <= full.calls && t.replied <= full.reply
      && (s.closing || Parse(Pending(s)).More? ==>
            full.used == t.consumed && full.calls == t.calls && full.reply == t.replied && full.closing == s.closing
                && full.bad == t.bad)
  {
    hide Parse, Serve, After, Refusal;
    var t := s.trace;
    var p, rest := t.received[..t.consumed], t.received[t.consumed..];
    var r, q := Serve(oracle, 0, p), Serve(oracle, |t.calls|, rest);
    assert p + rest == t.received;
    assert p[|p|..] + rest == rest;
    if r.closing {
      ServeHasEnded(oracle, 0, p, rest);
    } else {
      ServeGoesOn(oracle, 0, p, rest);
      AfterParts(t.consumed, t.calls, r.reply, q);
      ServeOne(oracle, |t.calls|, rest);
      if t.bad.Some? {
        JudgedIsWrong(rest, t.bad.value);
      }
    }
  }

  lemma JudgedIsWrong(rest: seq<byte>, bad: Bad)
    requires Judged(rest, bad)
    ensures bad != NoNewline ==> Parse(rest) == Wrong(bad)
    ensures bad == NoNewline ==> LongLine(rest)
  {
    hide Array, Inline;
    var m: nat :| m <= |rest| && Parse(rest[..m]) == Wrong(bad);
    ParseIsStable(rest[..m], rest);
    if bad == NoNewline {
      NoNewlineIsLong(rest[..m]);
      assert forall i :: 0 <= i < m ==> rest[i] == rest[..m][i];
    }
  }

  /** A line, not an array, with no newline in its first `MAX_INLINE + 1` bytes. */
  ghost predicate LongLine(rest: seq<byte>)
  {
    |rest| > MAX_INLINE && rest[0] != STAR && forall i :: 0 <= i <= MAX_INLINE ==> rest[i] != NEWLINE
  }

  lemma NoNewlineIsLong(p: seq<byte>)
    requires Parse(p) == Wrong(NoNewline)
    ensures LongLine(p)
  {
    hide Bulks, Words, Record, Decimal.Lenient;
    if p[0] == STAR {
      if Line(p, 0).Some? {
        HeaderIsNotEmpty(p);
        var cut := Line(p, 0).value;
        if Count(cut.text).Ok? {
          NotALine(p, cut.next, Count(cut.text).value);
        }
      }
    } else if Line(p, 0).Some? {
      RecordIsNotALine([], Words(Line(p, 0).value.text, 0));
    }
  }

  // ---------------------------------------------------------------------------------------------
  // Runs
  // ---------------------------------------------------------------------------------------------

  /** What a socket does for a connection: gives it some bytes, or takes some of its reply. */
  datatype Event = Reads(data: seq<byte>) | Takes(n: nat)

  /** The socket answers what the connection wants. */
  ghost predicate Allowed(s: State, event: Event, oracle: Oracle)
  {
    Framed(s) &&
    var (r, want) := Stepped(s, oracle);
    Framed(r) &&
    match event
    case Reads(data) => want.Recv? && |data| <= want.len && r.filled + |data| <= |r.buf|
    case Takes(n) => want.Send? && n <= want.len
  }

  ghost function Moved(s: State, event: Event, oracle: Oracle): State
    requires Allowed(s, event, oracle)
  {
    var r := Stepped(s, oracle).0;
    match event
    case Reads(data) => Arrived(r, data)
    case Takes(n) => Written(r, n)
  }

  /** A connection driven by its own steps reaches `last` when the socket answers them with `events`. */
  ghost predicate Reaches(s: State, events: seq<Event>, last: State, oracle: Oracle)
    decreases |events|
  {
    if events == [] then last == s
    else Allowed(s, events[0], oracle) && Reaches(Moved(s, events[0], oracle), events[1..], last, oracle)
  }

  function Came(event: Event): seq<byte>
  {
    if event.Reads? then event.data else []
  }

  function Data(events: seq<Event>): seq<byte>
  {
    if events == [] then [] else Came(events[0]) + Data(events[1..])
  }

  function Fresh(): (s: State)
  {
    State(seq(CHUNK, _ => 0), 0, 0, [], 0, false, Trace([], 0, [], [], [], None))
  }

  lemma FreshIsGood(oracle: Oracle)
    ensures Good(Fresh(), oracle) && Framed(Fresh())
  {
    hide Serve;
    ServeNothing(oracle, 0);
  }

  lemma {:induction false} EveryRunIsGood(s: State, events: seq<Event>, last: State, oracle: Oracle)
    requires Good(s, oracle) && Reaches(s, events, last, oracle)
    ensures Good(last, oracle) && last.trace.received == s.trace.received + Data(events)
    decreases |events|
  {
    hide Good, Allowed, Moved, Came;
    if events == [] {
      assert s.trace.received + [] == s.trace.received;
    } else {
      MovedIsGood(s, events[0], oracle);
      var next := Moved(s, events[0], oracle);
      EveryRunIsGood(next, events[1..], last, oracle);
      var was, came, rest := s.trace.received, Came(events[0]), Data(events[1..]);
      assert was + (came + rest) == was + came + rest;
    }
  }

  lemma MovedIsGood(s: State, event: Event, oracle: Oracle)
    requires Good(s, oracle) && Allowed(s, event, oracle)
    ensures Good(Moved(s, event, oracle), oracle)
    ensures Moved(s, event, oracle).trace.received == s.trace.received + Came(event)
  {
    hide Good, Stepped;
    SteppedIsGood(s, oracle);
    var r := Stepped(s, oracle).0;
    match event
    case Reads(data) => ArrivedIsGood(r, data, oracle);
    case Takes(n) =>
      WrittenIsGood(r, n, oracle);
      assert r.trace.received + [] == r.trace.received;
  }

  /** However the stream is cut into reads and the replies into writes: what has been run and written is the
      beginning of what the stream is served, and is exactly that whenever the connection waits for more or is
      done, which it is only when the last has run or one request, not whole, is too large to hold; but for a line
      too long to wait for. */
  lemma EveryCuttingServesTheStream(events: seq<Event>, last: State, oracle: Oracle)
    requires Reaches(Fresh(), events, last, oracle)
    ensures Framed(last)
    ensures
      var (r, want) := Stepped(last, oracle);
      var full := Serve(oracle, 0, Data(events));
      && r.trace.consumed <= |Data(events)|
      && (want.Recv? ==> r.trace.calls == full.calls && r.trace.wrote == full.reply && !full.closing)
      && var rest := Data(events)[r.trace.consumed..];
      || LongLine(rest)
      || (&& r.trace.calls <= full.calls && r.trace.wrote <= full.reply
          && (want.Close? ==>
                && r.trace.calls == full.calls && r.trace.wrote == full.reply
                && (full.closing || (Parse(rest).More? && |rest| > MAX_REQUEST - SPARE))))
  {
    hide Parse, Serve, Stepped, Judged, Reaches;
    FreshIsGood(oracle);
    EveryRunIsGood(Fresh(), events, last, oracle);
    assert [] + Data(events) == Data(events);
    GoodIsFramed(last, oracle);
    SteppedIsGood(last, oracle);
    var (r, want) := Stepped(last, oracle);
    var t := r.trace;
    if t.bad == Some(NoNewline) {
      JudgedIsWrong(t.received[t.consumed..], NoNewline);
    } else {
      DoneIsServed(r, oracle);
      assert t.wrote <= t.replied;
      if !Owes(r) {
        assert r.out[r.sent..] == [];
        assert t.wrote + [] == t.wrote;
      }
    }
  }

  /** Commands a connection can hold one of while it arrives. */
  ghost predicate Holdable(commands: seq<seq<seq<byte>>>)
  {
    forall i :: 0 <= i < |commands| ==> Sendable(commands[i]) && |Request(commands[i])| <= MAX_REQUEST - SPARE
  }

  /** The unused bytes of a stream of commands are the beginning of the next command. */
  lemma NeverALongLine(s: State, oracle: Oracle, commands: seq<seq<seq<byte>>>)
    requires Good(s, oracle) && Holdable(commands) && s.trace.received <= Pipeline(commands)
    ensures s.trace.bad != Some(NoNewline)
  {
    hide Parse, Serve, Judged, Pipeline, InTurn, Request;
    var t := s.trace;
    if t.bad == Some(NoNewline) {
      var p, rest := t.received[..t.consumed], t.received[t.consumed..];
      JudgedIsWrong(rest, NoNewline);
      PipelinePrefix(oracle, 0, commands, p);
      var n := |t.calls|;
      assert rest[0] == Pipeline(commands)[t.consumed..][0];
      FirstOfPipeline(commands[n..]);
    }
  }

  lemma FirstOfPipeline(commands: seq<seq<seq<byte>>>)
    requires Pipeline(commands) != []
    ensures Pipeline(commands)[0] == STAR
  {
    RequestStarts(commands[0]);
  }

  /** Commands written end to end, arriving however they may, each small enough to hold: those run are the first of
      them and what has been sent is the beginning of their answers; the connection ends only once the last has
      run and been answered in full; and once all have arrived it waits only when all have been. */
  lemma EveryCuttingRunsEveryCommand(events: seq<Event>, last: State, oracle: Oracle, commands: seq<seq<seq<byte>>>)
    requires Reaches(Fresh(), events, last, oracle) && Holdable(commands) && Data(events) <= Pipeline(commands)
    ensures Framed(last)
    ensures
      var (r, want) := Stepped(last, oracle);
      var all := InTurn(oracle, 0, commands);
      && r.trace.calls <= all.calls && r.trace.wrote <= all.reply
      && (want.Close? ==> all == Ran(r.trace.calls, r.trace.wrote, true))
      && (want.Recv? && Data(events) == Pipeline(commands) ==>
          r.trace.calls == commands && all == Ran(commands, r.trace.wrote, false))
  {
    hide Parse, Serve, Stepped, Reaches, InTurn, InStep, Request, Pipeline;
    FreshIsGood(oracle);
    EveryRunIsGood(Fresh(), events, last, oracle);
    assert [] + Data(events) == Data(events);
    GoodIsFramed(last, oracle);
    SteppedIsGood(last, oracle);
    var (r, want) := Stepped(last, oracle);
    var t, d := r.trace, Data(events);
    NeverALongLine(r, oracle, commands);
    DoneIsServed(r, oracle);
    PipelinePrefix(oracle, 0, commands, d);
    WroteIsReplied(r, oracle);
    if want.Close? && !r.closing {
      PendingIsLeft(r, oracle);
    }
    if want.Recv? && d == Pipeline(commands) {
      AllHasBeenUsed(oracle, commands);
    }
  }

  lemma WroteIsReplied(s: State, oracle: Oracle)
    requires Good(s, oracle)
    ensures s.trace.wrote <= s.trace.replied && (!Owes(s) ==> s.trace.wrote == s.trace.replied)
  {
    hide InStep;
    if !Owes(s) {
      assert s.out[s.sent..] == [];
    }
  }

  lemma PendingIsLeft(s: State, oracle: Oracle)
    requires Good(s, oracle)
    ensures |Pending(s)| == |s.trace.received| - s.trace.consumed
  {
    hide Serve, Judged;
  }

  lemma AllHasBeenUsed(oracle: Oracle, commands: seq<seq<seq<byte>>>)
    requires Holdable(commands)
    ensures var r := Serve(oracle, 0, Pipeline(commands)); !r.closing ==> r.calls == commands
  {
    hide Serve, InTurn, Request;
    PipelineIsServed(oracle, 0, commands);
  }

  // ---------------------------------------------------------------------------------------------
  // Progress
  // ---------------------------------------------------------------------------------------------

  /** Answering uses bytes up, ends the connection, or finds nothing to do. */
  lemma {:induction false} AnsweredUses(s: State, oracle: Oracle)
    requires Framed(s)
    ensures var x := Answered(s, oracle);
            |Pending(x)| <= |Pending(s)| && (x == s || x.closing || |Pending(x)| < |Pending(s)|)
                && (s.closing ==> x == s)
    decreases s.filled - s.at, !s.closing
  {
    hide Parse, Texts;
    if !s.closing && |s.out| < MAX_REPLY {
      var rest := Pending(s);
      if Parse(rest).Done? {
        DoneIsInside(rest);
        AnsweredUses(Dispatched(s, Parse(rest).used, Texts(rest, Parse(rest).args), oracle), oracle);
      } else if Parse(rest).Wrong? {
        AnsweredUses(Refused(s, Parse(rest).bad), oracle);
      }
    }
  }

  /** A step that wants to send either owed already, or has used bytes up or ended the connection. */
  lemma SendingIsProgress(s: State, oracle: Oracle)
    requires Good(s, oracle) && Framed(s) && Stepped(s, oracle).1.Send?
    ensures
      var r := Stepped(s, oracle).0;
      && Framed(r)
      && (|| (r == s && Owes(s))
          || (&& !Owes(s) && !s.closing && |Pending(r)| <= |Pending(s)|
              && (r.closing || |Pending(r)| < |Pending(s)|)))
  {
    hide Good, Answered, WithRoom, Compacted, Parse;
    if !Owes(s) {
      var e := Emptied(s);
      if !e.closing && e.at < e.filled {
        AnsweredUses(e, oracle);
      }
    }
  }

  /** From every state, a socket that takes what it is offered is soon owed nothing: the connection comes to wait for
      bytes or to end, without a byte more arriving. */
  lemma {:induction false} TakingEnds(s: State, oracle: Oracle) returns (events: seq<Event>, last: State)
    requires Good(s, oracle) && Framed(s)
    ensures Reaches(s, events, last, oracle) && Good(last, oracle) && Framed(last) && Data(events) == []
    ensures forall i :: 0 <= i < |events| ==> events[i].Takes?
    ensures !Stepped(last, oracle).1.Send?
    decreases |Pending(s)|, !s.closing, Owes(s)
  {
    hide Good, Stepped, Pending;
    var (r, want) := Stepped(s, oracle);
    if !want.Send? {
      events, last := [], s;
    } else {
      SteppedIsGood(s, oracle);
      SendingIsProgress(s, oracle);
      var take := Takes(want.len);
      var next := Written(r, want.len);
      WrittenIsGood(r, want.len, oracle);
      GoodIsFramed(next, oracle);
      SamePending(r, want.len);
      var more, end := TakingEnds(next, oracle);
      events, last := [take] + more, end;
      assert events[1..] == more;
      assert Allowed(s, take, oracle) && Moved(s, take, oracle) == next;
      assert [] + Data(more) == Data(more);
    }
  }

  lemma SamePending(s: State, n: nat)
    requires Framed(s)
    ensures Framed(Written(s, n)) && Pending(Written(s, n)) == Pending(s) && Written(s, n).closing == s.closing
  {
  }

  lemma {:induction false} ReachesOn(s: State, first: seq<Event>, mid: State, second: seq<Event>, last: State,
                          oracle: Oracle)
    requires Reaches(s, first, mid, oracle) && Reaches(mid, second, last, oracle)
    ensures Reaches(s, first + second, last, oracle) && Data(first + second) == Data(first) + Data(second)
    decreases |first|
  {
    hide Allowed, Moved, Came;
    if first == [] {
      assert first + second == second && [] + Data(second) == Data(second);
    } else {
      assert (first + second)[1..] == first[1..] + second;
      ReachesOn(Moved(s, first[0], oracle), first[1..], mid, second, last, oracle);
    }
  }

  /** How many bytes of reply there will have been once everything whole that has arrived is answered. */
  ghost function Total(s: State, oracle: Oracle): nat
    requires Framed(s)
  {
    |s.trace.replied| + if s.closing then 0 else |Serve(oracle, |s.trace.calls|, Pending(s)).reply|
  }

  /** Answering only brings nearer what there will have been. */
  lemma {:induction false} AnsweredTotal(s: State, oracle: Oracle)
    requires Framed(s)
    ensures Total(Answered(s, oracle), oracle) == Total(s, oracle)
    decreases s.filled - s.at, !s.closing
  {
    hide Parse, Texts, Run, Serve, Refusal, After;
    if !s.closing && |s.out| < MAX_REPLY {
      var rest := Pending(s);
      ServeOne(oracle, |s.trace.calls|, rest);
      if Parse(rest).Done? {
        DoneIsInside(rest);
        var used, args := Parse(rest).used, Texts(rest, Parse(rest).args);
        var d, a := Dispatched(s, used, args, oracle), Run(oracle, |s.trace.calls|, args);
        assert Pending(d) == rest[used..];
        AfterParts(used, a.calls, a.reply, Serve(oracle, |s.trace.calls| + |a.calls|, rest[used..]));
        AnsweredTotal(d, oracle);
      } else if Parse(rest).Wrong? {
        AnsweredTotal(Refused(s, Parse(rest).bad), oracle);
      }
    }
  }

  lemma SteppedTotal(s: State, oracle: Oracle)
    requires Good(s, oracle) && Framed(s)
    ensures Framed(Stepped(s, oracle).0) && Total(Stepped(s, oracle).0, oracle) == Total(s, oracle)
  {
    hide Good, Answered, WithRoom, Compacted, Parse, Serve;
    if !Owes(s) {
      EmptiedIsGood(s, oracle);
      var e := Emptied(s);
      if !e.closing {
        var x := e;
        if e.at < e.filled {
          AnsweredTotal(e, oracle);
          AnsweredIsGood(e, oracle);
          RewoundIsGood(Answered(e, oracle), oracle);
          x := Rewound(Answered(e, oracle));
        }
        if !Owes(x) && !x.closing {
          WithRoomIsGood(x, oracle);
          CompactedParts(x);
          if WithRoom(x).Some? {
            GoodIsFramed(WithRoom(x).value, oracle);
          }
        }
      }
    }
  }

  /** Every way a socket takes at least a byte at a time of what it is offered comes to an end: there are never more
      such takings than there are bytes of reply yet to be written. */
  lemma {:induction false} EveryTakingEnds(s: State, events: seq<Event>, last: State, oracle: Oracle)
    requires Good(s, oracle) && Framed(s) && Reaches(s, events, last, oracle)
    requires forall i :: 0 <= i < |events| ==> events[i].Takes? && events[i].n > 0
    ensures Good(last, oracle) && |events| + |s.trace.wrote| <= |last.trace.wrote| <= Total(s, oracle)
    decreases |events|
  {
    hide Good, Stepped, Serve;
    if events == [] {
      WroteIsReplied(s, oracle);
    } else {
      var take := events[0];
      SteppedIsGood(s, oracle);
      SteppedTotal(s, oracle);
      var r := Stepped(s, oracle).0;
      var next := Written(r, take.n);
      WrittenIsGood(r, take.n, oracle);
      GoodIsFramed(next, oracle);
      SamePending(r, take.n);
      assert Moved(s, take, oracle) == next;
      EveryTakingEnds(next, events[1..], last, oracle);
    }
  }

  lemma TotalIsServed(s: State, oracle: Oracle)
    requires Good(s, oracle) && Framed(s) && s.trace.bad != Some(NoNewline)
    ensures Total(s, oracle) == |Serve(oracle, 0, s.trace.received).reply|
  {
    hide Serve, Parse, After, Judged;
    DoneIsServed(s, oracle);
    var t := s.trace;
    if !s.closing {
      var p, rest := t.received[..t.consumed], t.received[t.consumed..];
      assert p + rest == t.received;
      assert p[|p|..] + rest == rest;
      ServeGoesOn(oracle, 0, p, rest);
      AfterParts(t.consumed, t.calls, t.replied, Serve(oracle, |t.calls|, rest));
    }
  }

  /** Once commands written end to end have all arrived, however the socket then takes the replies, at least a byte at
      a time: it is offered some as long as any is owed, all the answers are out after no more takings than they have
      bytes, and each command has run once and in order up to one that is the last. */
  lemma EveryCommandIsAnswered(events: seq<Event>, s: State, more: seq<Event>, last: State, oracle: Oracle,
                          commands: seq<seq<seq<byte>>>)
    requires Reaches(Fresh(), events, s, oracle) && Holdable(commands) && Data(events) == Pipeline(commands)
    requires Reaches(s, more, last, oracle) && forall i :: 0 <= i < |more| ==> more[i].Takes? && more[i].n > 0
    ensures Framed(last)
    ensures
      var (r, want) := Stepped(last, oracle);
      var all := InTurn(oracle, 0, commands);
      && |more| + |s.trace.wrote| <= |all.reply|
      && (want.Send? ==> want.len > 0 && |more| + |s.trace.wrote| < |all.reply|)
      && (!want.Send? ==> r.trace.calls == all.calls && r.trace.wrote == all.reply)
  {
    hide Good, Stepped, Reaches, InTurn, Pipeline, Holdable, Serve, Total;
    FreshIsGood(oracle);
    EveryRunIsGood(Fresh(), events, s, oracle);
    assert [] + Data(events) == Data(events);
    GoodIsFramed(s, oracle);
    NoData(more);
    ReachesOn(Fresh(), events, s, more, last, oracle);
    assert Data(events) + [] == Data(events);
    EveryCuttingRunsEveryCommand(events + more, last, oracle, commands);
    TotalOfPipeline(s, oracle, commands);
    EveryTakingEnds(s, more, last, oracle);
    GoodIsFramed(last, oracle);
    SteppedIsGood(last, oracle);
    if Stepped(last, oracle).1.Send? {
      StillOwed(s, more, last, oracle);
    }
  }

  /** With all of some commands arrived, what there will have been of reply is their answers. */
  lemma TotalOfPipeline(s: State, oracle: Oracle, commands: seq<seq<seq<byte>>>)
    requires Good(s, oracle) && Framed(s) && Holdable(commands) && s.trace.received == Pipeline(commands)
    ensures Total(s, oracle) == |InTurn(oracle, 0, commands).reply|
  {
    hide Good, InTurn, Pipeline, Holdable, Serve, Total;
    NeverALongLine(s, oracle, commands);
    TotalIsServed(s, oracle);
    EachIsSendable(commands);
    PipelineIsServed(oracle, 0, commands);
  }

  lemma {:induction false} NoData(events: seq<Event>)
    requires forall i :: 0 <= i < |events| ==> events[i].Takes?
    ensures Data(events) == []
  {
    if events != [] {
      NoData(events[1..]);
    }
  }

  lemma EachIsSendable(commands: seq<seq<seq<byte>>>)
    requires Holdable(commands)
    ensures forall i :: 0 <= i < |commands| ==> Sendable(commands[i])
  {
  }

  /** While something is owed, there are bytes of reply yet to be written. */
  lemma StillOwed(s: State, more: seq<Event>, last: State, oracle: Oracle)
    requires Good(s, oracle) && Framed(s) && Reaches(s, more, last, oracle) && Good(last, oracle) && Framed(last)
    requires forall i :: 0 <= i < |more| ==> more[i].Takes? && more[i].n > 0
    requires Stepped(last, oracle).1.Send?
    ensures |more| + |s.trace.wrote| < Total(s, oracle)
  {
    hide Good, Stepped, Reaches, Total;
    var take, next := OfferTaken(last, oracle);
    ReachesOn(s, more, last, [take], next, oracle);
    EveryTakingEnds(s, more + [take], next, oracle);
  }

  /** What is offered can be taken whole. */
  lemma OfferTaken(s: State, oracle: Oracle) returns (take: Event, next: State)
    requires Good(s, oracle) && Framed(s) && Stepped(s, oracle).1.Send?
    ensures take.Takes? && take.n > 0 && Reaches(s, [take], next, oracle)
  {
    hide Good, Stepped, Written;
    SteppedIsGood(s, oracle);
    var (r, want) := Stepped(s, oracle);
    GoodIsFramed(r, oracle);
    take, next := Takes(want.len), Written(r, want.len);
    OneStepOn(s, take, next, oracle);
  }

  lemma OneStepOn(s: State, event: Event, next: State, oracle: Oracle)
    requires Allowed(s, event, oracle) && Moved(s, event, oracle) == next
    ensures Reaches(s, [event], next, oracle)
  {
    hide Allowed, Moved;
    assert [event][1..] == [];
    assert Reaches(next, [], next, oracle);
  }

  // ---------------------------------------------------------------------------------------------
  // Turns
  // ---------------------------------------------------------------------------------------------

  /** What one attempt to write comes to. */
  datatype Push = Took(n: nat) | Interrupted | Blocked | Broken

  /** A state, and whether the socket still serves. */
  datatype Flow = Flow(state: State, ok: bool)

  /** The reply buffer after writing what the socket takes, attempt by attempt, until it breaks. */
  function Poured(s: State, pushes: seq<Push>): (r: Flow)
    requires Framed(s)
    ensures Framed(r.state)
    decreases |pushes|
  {
    if !Owes(s) || pushes == [] then Flow(s, true)
    else
      match pushes[0]
      case Took(n) => if n == 0 then Flow(s, false) else Poured(Written(s, n), pushes[1..])
      case Interrupted => Poured(s, pushes[1..])
      case Blocked => Flow(s, true)
      case Broken => Flow(s, false)
  }

  /** A reply buffer that is all out is emptied, and one that is mostly out drained. */
  function Tidied(s: State): State
    requires Framed(s)
  {
    if !Owes(s) then Emptied(s) else if s.sent > MAX_REPLY then Drained(s) else s
  }

  function Flushed(s: State, pushes: seq<Push>): (r: Flow)
    requires Framed(s)
    ensures Framed(r.state)
  {
    var p := Poured(s, pushes);
    if p.ok then Flow(Tidied(p.state), true) else p
  }

  lemma {:induction false} PouredIsGood(s: State, pushes: seq<Push>, oracle: Oracle)
    requires Good(s, oracle)
    ensures Framed(s)
    ensures
      var p := Poured(s, pushes).state;
      && Good(p, oracle) && p.closing == s.closing && Pending(p) == Pending(s)
      && p.trace == s.trace.(wrote := p.trace.wrote) && s.trace.wrote <= p.trace.wrote
    decreases |pushes|
  {
    hide Good;
    GoodIsFramed(s, oracle);
    if Owes(s) && pushes != [] {
      match pushes[0]
      case Took(n) =>
        WrittenIsGood(s, n, oracle);
        PouredIsGood(Written(s, n), pushes[1..], oracle);
      case Interrupted => PouredIsGood(s, pushes[1..], oracle);
      case Blocked =>
      case Broken =>
    }
  }

  /** Writing loses nothing and repeats nothing, whatever the socket takes at a time and however it ends. */
  lemma FlushedIsGood(s: State, pushes: seq<Push>, oracle: Oracle)
    requires Good(s, oracle)
    ensures Framed(s)
    ensures
      var p := Flushed(s, pushes);
      && Good(p.state, oracle) && p.state.closing == s.closing && Pending(p.state) == Pending(s)
      && p.state.trace == s.trace.(wrote := p.state.trace.wrote) && s.trace.wrote <= p.state.trace.wrote
      && (p.ok ==> (!Owes(p.state) ==> p.state.out == []) && p.state.sent <= MAX_REPLY)
  {
    hide Good, Poured;
    PouredIsGood(s, pushes, oracle);
    var p := Poured(s, pushes);
    if p.ok {
      if !Owes(p.state) {
        EmptiedIsGood(p.state, oracle);
      } else {
        DrainedIsGood(p.state, oracle);
      }
    }
  }

  /** What one read comes to. */
  datatype Pull = Got(data: seq<byte>) | NothingYet | Gone

  datatype Turn = ToRead | ToWrite | ToClose

  /** As much of some bytes as there is room for. */
  function ThatFit(s: State, data: seq<byte>): seq<byte>
    requires Framed(s)
  {
    if s.filled + |data| <= |s.buf| then data else data[..|s.buf| - s.filled]
  }

  /** Room made and one read done, unless there is no room, the peer is gone, or the socket failed. */
  function Filled(s: State, pull: Pull): (r: Flow)
    requires Framed(s)
    ensures Framed(r.state)
  {
    match WithRoom(s)
    case None => Flow(if s.at > 0 then Compacted(s) else s, false)
    case Some(w) =>
      match pull
      case Got(data) => if data == [] then Flow(w, false) else Flow(Arrived(w, ThatFit(w, data)), true)
      case NothingYet => Flow(w, true)
      case Gone => Flow(w, false)
  }

  /** What a turn has in hand once it has written, if woken to, and read, if woken to. */
  function InHand(s: State, writable: bool, readable: bool, first: seq<Push>, pull: Pull): (r: Flow)
    requires Framed(s)
    ensures Framed(r.state)
  {
    var f := if writable then Flushed(s, first) else Flow(s, true);
    if f.ok && readable then Filled(f.state, pull) else f
  }

  /** A turn: write if woken to, read once, answer and write again if woken to. */
  function Turned(s: State, writable: bool, readable: bool, first: seq<Push>, pull: Pull, second: seq<Push>,
                  oracle: Oracle): (r: (State, Turn))
    requires Framed(s)
    ensures Framed(r.0)
  {
    var g := InHand(s, writable, readable, first, pull);
    if !g.ok then (g.state, ToClose)
    else
      var h := if readable then Flushed(Executed(g.state, oracle), second) else g;
      if !h.ok then (h.state, ToClose)
      else (h.state, if Owes(h.state) then ToWrite else if h.state.closing then ToClose else ToRead)
  }

  lemma FilledIsGood(s: State, pull: Pull, oracle: Oracle)
    requires Good(s, oracle)
    ensures Framed(s) && Good(Filled(s, pull).state, oracle)
  {
    hide Good, WithRoom, Arrived, Compacted;
    GoodIsFramed(s, oracle);
    WithRoomIsGood(s, oracle);
    CompactedIsGood(s, oracle);
    if WithRoom(s).Some? && pull.Got? {
      var w := WithRoom(s).value;
      GoodIsFramed(w, oracle);
      ArrivedIsGood(w, ThatFit(w, pull.data), oracle);
    }
  }

  lemma InHandIsGood(s: State, writable: bool, readable: bool, first: seq<Push>, pull: Pull, oracle: Oracle)
    requires Good(s, oracle)
    ensures Framed(s) && Good(InHand(s, writable, readable, first, pull).state, oracle)
  {
    hide Good, Flushed, Filled;
    GoodIsFramed(s, oracle);
    FlushedIsGood(s, first, oracle);
    FilledIsGood((if writable then Flushed(s, first) else Flow(s, true)).state, pull, oracle);
  }

  /** A turn keeps every byte accounted for however it ends; it wants to write only when something is owed, and to
      read only when nothing is and the connection goes on. */
  lemma TurnedIsGood(s: State, writable: bool, readable: bool, first: seq<Push>, pull: Pull, second: seq<Push>,
                     oracle: Oracle)
    requires Good(s, oracle)
    ensures Framed(s)
    ensures
      var (r, turn) := Turned(s, writable, readable, first, pull, second, oracle);
      && Good(r, oracle)
      && (turn.ToWrite? ==> Owes(r))
      && (turn.ToRead? ==> !Owes(r) && !r.closing)
  {
    hide Good, Flushed, InHand, Executed;
    GoodIsFramed(s, oracle);
    InHandIsGood(s, writable, readable, first, pull, oracle);
    var g := InHand(s, writable, readable, first, pull);
    if g.ok {
      ExecutedIsGood(g.state, oracle);
      FlushedIsGood(Executed(g.state, oracle), second, oracle);
    }
  }

  lemma ExecutedIsGood(s: State, oracle: Oracle)
    requires Good(s, oracle)
    ensures Framed(s) && Good(Executed(s, oracle), oracle) && Framed(Executed(s, oracle))
    ensures
      var x := Executed(s, oracle);
      && (x.closing || |x.out| >= MAX_REPLY || Parse(Pending(x)).More?) && |x.buf| == |s.buf|
      && (Pending(x) == [] ==> x.at == x.filled == 0)
  {
    hide Good, Parse, Answered;
    GoodIsFramed(s, oracle);
    AnsweredIsGood(s, oracle);
    RewoundIsGood(Answered(s, oracle), oracle);
    GoodIsFramed(Executed(s, oracle), oracle);
  }

  /** How many bytes of reply the whole commands in `s` come to, all but the last of them. */
  function RepliesButLast(oracle: Oracle, k: nat, s: seq<byte>): nat
    decreases |s|
  {
    if !Parse(s).Done? then 0
    else
      DoneIsInside(s);
      var a, rest := Run(oracle, k, Texts(s, Parse(s).args)), s[Parse(s).used..];
      if a.last || Parse(rest).More? then 0 else |a.reply| + RepliesButLast(oracle, k + |a.calls|, rest)
  }

  /** Answering gets to the end of what is whole exactly when the replies before the last keep under the ceiling. */
  lemma {:induction false} AnsweredToTheEnd(s: State, oracle: Oracle)
    requires Framed(s) && !s.closing
    ensures
      var x := Answered(s, oracle);
      (x.closing || Parse(Pending(x)).More?) <==>
        (Parse(Pending(s)).More? || |s.out| + RepliesButLast(oracle, |s.trace.calls|, Pending(s)) < MAX_REPLY)
    decreases s.filled - s.at
  {
    hide Parse, Texts, Run;
    var rest := Pending(s);
    if |s.out| < MAX_REPLY && Parse(rest).Done? {
      DoneIsInside(rest);
      var used, args := Parse(rest).used, Texts(rest, Parse(rest).args);
      var d := Dispatched(s, used, args, oracle);
      assert Pending(d) == rest[used..];
      if !d.closing {
        AnsweredToTheEnd(d, oracle);
      }
    }
  }

  /** A turn that was woken to read and got as far as answering has left nothing whole, or has answered its last, if and
      only if it was ending already, there was nothing whole to begin with, or the replies in hand and those to every
      whole command but the last keep under the ceiling. */
  lemma TurnLeavesNothingWhole(s: State, writable: bool, first: seq<Push>, pull: Pull, second: seq<Push>,
                          oracle: Oracle)
    requires Good(s, oracle) && Framed(s)
    ensures
      var g := InHand(s, writable, true, first, pull);
      var (r, turn) := Turned(s, writable, true, first, pull, second, oracle);
      && (turn.ToRead? ==> g.ok && !r.closing)
      && (g.ok ==>
            (r.closing || Parse(Pending(r)).More? <==>
               || g.state.closing || Parse(Pending(g.state)).More?
               || |g.state.out| + RepliesButLast(oracle, |g.state.trace.calls|, Pending(g.state)) < MAX_REPLY))
  {
    hide Good, Flushed, InHand, Parse, Answered, RepliesButLast;
    InHandIsGood(s, writable, true, first, pull, oracle);
    var g := InHand(s, writable, true, first, pull);
    if g.ok {
      AnsweredIsGood(g.state, oracle);
      RewoundIsGood(Answered(g.state, oracle), oracle);
      FlushedIsGood(Executed(g.state, oracle), second, oracle);
      if g.state.closing {
        AnsweredUses(g.state, oracle);
      } else {
        AnsweredToTheEnd(g.state, oracle);
      }
    }
  }

  /** A turn not woken to read leaves the bytes it has as they were. */
  lemma WritingLeavesTheRest(s: State, writable: bool, first: seq<Push>, pull: Pull, second: seq<Push>, oracle: Oracle)
    requires Good(s, oracle) && Framed(s)
    ensures Pending(Turned(s, writable, false, first, pull, second, oracle).0) == Pending(s)
  {
    hide Good, Flushed;
    FlushedIsGood(s, first, oracle);
  }

  const LETTER: byte := 65

  lemma LetterIsACommand(rest: seq<byte>)
    ensures Parse([LETTER, NEWLINE] + rest) == Done(2, [Span(0, 1)])
  {
    var buf := [LETTER, NEWLINE] + rest;
    FirstNewline(buf, 0, 1);
    var line := buf[0..1];
    assert line == [LETTER];
    assert Words(line, 1) == [] && WordEnd(line, 0) == 1;
    assert Words(line, 0) == [Span(0, 1)];
    assert [Span(0, 1)][1..] == [];
    assert Record([Span(0, 1)], []) == Ok([Span(0, 1)]);
    assert Record([], [Span(0, 1)]) == Ok([Span(0, 1)]) by {
      assert [] + [Span(0, 1)] == [Span(0, 1)];
    }
  }

  /** A turn may want to read with a whole command still in the buffer: the first of two met the ceiling, and the
      socket then took all of its reply. */
  lemma TurnMayLeaveACommand(oracle: Oracle)
    requires forall k, args :: !oracle(k, args).last && |oracle(k, args).reply| == MAX_REPLY
    ensures Framed(Fresh())
    ensures
      var both := Got([LETTER, NEWLINE, LETTER, NEWLINE]);
      var (r, turn) := Turned(Fresh(), false, true, [], both, [Took(MAX_REPLY)], oracle);
      turn == ToRead && Parse(Pending(r)).Done?
  {
    hide Parse;
    var two: seq<byte> := [LETTER, NEWLINE, LETTER, NEWLINE];
    var g := Arrived(Fresh(), two);
    assert Pending(g) == two == [LETTER, NEWLINE] + [LETTER, NEWLINE];
    LetterIsACommand([LETTER, NEWLINE]);
    DoneIsInside(two);
    var d := Dispatched(g, 2, Texts(two, [Span(0, 1)]), oracle);
    assert Answered(g, oracle) == Answered(d, oracle) == d;
    assert Pending(d) == [LETTER, NEWLINE] + [];
    LetterIsACommand([]);
    assert Executed(g, oracle) == d;
    assert Poured(Written(d, MAX_REPLY), [Took(MAX_REPLY)][1..]) == Flow(Written(d, MAX_REPLY), true);
    assert Flushed(d, [Took(MAX_REPLY)]) == Flow(Emptied(Written(d, MAX_REPLY)), true);
  }
}
