/** What a stream of bytes is served, said of the whole stream at once. */
module Serving {
  import opened Bytes
  import opened Resp

  /** What running a command gives: its reply, and whether the connection ends with it. */
  datatype Answer = Answer(reply: seq<byte>, last: bool)

  /** What a connection's n-th command is answered, whatever else is going on in the server. */
  type Oracle = (nat, seq<seq<byte>>) -> Answer

  /** The bytes used, the commands run, the replies end to end, and whether and why that was all. */
  datatype Served = Served(used: nat, calls: seq<seq<seq<byte>>>, reply: seq<byte>, closing: bool, bad: Option<Bad>)

  function Ascii(text: string): (s: seq<byte>)
    ensures |s| == |text|
  {
    seq(|text|, i requires 0 <= i < |text| => text[i] as int % 0x80)
  }

  function Message(bad: Bad): string
  {
    match bad
    case NotANumber => "Protocol error: invalid multibulk length"
    case TooLong => "Protocol error: invalid bulk length"
    case TooManyArguments => "Protocol error: too many arguments"
    case ExpectedBulk => "Protocol error: expected '$', got something else"
    case NoNewline => "Protocol error: too big inline request"
  }

  /** The last thing a client whose framing is wrong is told. */
  function Refusal(bad: Bad): (s: seq<byte>)
    ensures s != []
  {
    Ascii("-ERR ") + Ascii(Message(bad)) + CRLF
  }

  function After(used: nat, calls: seq<seq<seq<byte>>>, reply: seq<byte>, rest: Served): Served
  {
    Served(used + rest.used, calls + rest.calls, reply + rest.reply, rest.closing, rest.bad)
  }

  /** What one command comes to: a command of no arguments is passed over. */
  datatype Ran = Ran(calls: seq<seq<seq<byte>>>, reply: seq<byte>, last: bool)

  function Run(oracle: Oracle, k: nat, args: seq<seq<byte>>): (r: Ran)
    ensures |r.calls| <= 1
  {
    if args == [] then Ran([], [], false) else Ran([args], oracle(k, args).reply, oracle(k, args).last)
  }

  /** Serve everything whole in `s`, the next command being the k-th. */
  function Serve(oracle: Oracle, k: nat, s: seq<byte>): (r: Served)
    ensures r.used <= |s|
    ensures r.bad.Some? ==> r.closing
    decreases |s|
  {
    match Parse(s)
    case More => Served(0, [], [], false, None)
    case Wrong(bad) => Served(0, [], Refusal(bad), true, Some(bad))
    case Done(n, spans) =>
      DoneIsInside(s);
      var a := Run(oracle, k, Texts(s, spans));
      if a.last then Served(n, a.calls, a.reply, true, None)
      else After(n, a.calls, a.reply, Serve(oracle, k + |a.calls|, s[n..]))
  }

  lemma AfterAfter(u: nat, c: seq<seq<seq<byte>>>, r: seq<byte>, v: nat, d: seq<seq<seq<byte>>>, q: seq<byte>,
                   rest: Served)
    ensures After(u, c, r, After(v, d, q, rest)) == After(u + v, c + d, r + q, rest)
  {
    assert c + (d + rest.calls) == c + d + rest.calls;
    assert r + (q + rest.reply) == r + q + rest.reply;
  }

  lemma AfterNothing(rest: Served)
    ensures After(0, [], [], rest) == rest
  {
    assert [] + rest.calls == rest.calls && [] + rest.reply == rest.reply;
  }

  /** What a stream is served, from the front and in terms of what the server answers: a command of no arguments uses
      its bytes and nothing else comes of it; any other is run once, as the k-th, and its answer comes first, and the
      stream ends with it exactly when the answer says so; wrong framing is told and ends the stream; and less than a
      command is served nothing. */
  lemma ServedInOrder(oracle: Oracle, k: nat, s: seq<byte>)
    ensures Parse(s).More? ==> Serve(oracle, k, s) == Served(0, [], [], false, None)
    ensures Parse(s).Wrong? ==> Serve(oracle, k, s) == Served(0, [], Refusal(Parse(s).bad), true, Some(Parse(s).bad))
    ensures Parse(s).Done? ==>
      && 0 < Parse(s).used <= |s|
      && (forall i :: 0 <= i < |Parse(s).args| ==> Parse(s).args[i].at + Parse(s).args[i].len <= |s|)
      && var n, args := Parse(s).used, Texts(s, Parse(s).args);
      var r, q := Serve(oracle, k, s), Serve(oracle, k + (if args == [] then 0 else 1), s[n..]);
      if args == [] then r == q.(used := n + q.used)
      else if oracle(k, args).last then r == Served(n, [args], oracle(k, args).reply, true, None)
      else r == Served(n + q.used, [args] + q.calls, oracle(k, args).reply + q.reply, q.closing, q.bad)
  {
    hide Parse, Texts, Serve;
    ServeOne(oracle, k, s);
    if Parse(s).Done? {
      var q := Serve(oracle, k, s[Parse(s).used..]);
      assert [] + q.calls == q.calls && [] + q.reply == q.reply;
    }
  }

  /** What a client is told before it is dropped is an error reply of one line. */
  lemma RefusalIsAnError(bad: Bad)
    ensures var s := Refusal(bad);
            |s| > 7 && s[..5] == [0x2D, 0x45, 0x52, 0x52, 0x20] && s[|s| - 2..] == [0x0D, 0x0A]
  {
    var head: seq<byte> := Ascii("-ERR ");
    assert head == [0x2D, 0x45, 0x52, 0x52, 0x20];
    assert |Message(bad)| > 0;
  }

  /** A whole command at the front of `p` is there whatever follows. */
  lemma DoneWithMore(p: seq<byte>, b: seq<byte>)
    requires Parse(p).Done?
    ensures Parse(p + b) == Parse(p) && 0 < Parse(p).used <= |p|
    ensures forall i :: 0 <= i < |Parse(p).args| ==> Parse(p).args[i].at + Parse(p).args[i].len <= |p|
    ensures Texts(p + b, Parse(p).args) == Texts(p, Parse(p).args)
    ensures (p + b)[Parse(p).used..] == p[Parse(p).used..] + b
  {
    hide Parse;
    DoneIsInside(p);
    assert (p + b)[..|p|] == p;
    ParseIsStable(p, p + b);
    var spans := Parse(p).args;
    forall i | 0 <= i < |spans|
      ensures (p + b)[spans[i].at..spans[i].at + spans[i].len] == p[spans[i].at..spans[i].at + spans[i].len]
    {
    }
  }

  /** Serving goes on from where it left off: what was served of `p` stays served, and the rest is what the
      bytes left over and those that follow are served. */
  lemma {:induction false} ServeGoesOn(oracle: Oracle, k: nat, p: seq<byte>, b: seq<byte>)
    requires !Serve(oracle, k, p).closing
    ensures
      var r := Serve(oracle, k, p);
      Serve(oracle, k, p + b) == After(r.used, r.calls, r.reply, Serve(oracle, k + |r.calls|, p[r.used..] + b))
    decreases |p|
  {
    hide Parse, Texts, Serve, After, Run;
    var r := Serve(oracle, k, p);
    ServeOne(oracle, k, p);
    if Parse(p).Done? {
      DoneWithMore(p, b);
      ServeOne(oracle, k, p + b);
      var n, a := Parse(p).used, Run(oracle, k, Texts(p, Parse(p).args));
      var rest := p[n..];
      var q := Serve(oracle, k + |a.calls|, rest);
      AfterParts(n, a.calls, a.reply, q);
      ServeGoesOn(oracle, k + |a.calls|, rest, b);
      ServeInside(oracle, k + |a.calls|, rest);
      assert p[r.used..] == rest[q.used..];
      AfterAfter(n, a.calls, a.reply, q.used, q.calls, q.reply, Serve(oracle, k + |r.calls|, p[r.used..] + b));
    } else {
      assert p[0..] == p;
      AfterNothing(Serve(oracle, k, p + b));
    }
  }

  lemma AfterParts(used: nat, calls: seq<seq<seq<byte>>>, reply: seq<byte>, rest: Served)
    ensures
      var r := After(used, calls, reply, rest);
      r.used == used + rest.used && r.calls == calls + rest.calls && r.reply == reply + rest.reply
          && r.closing == rest.closing && r.bad == rest.bad
  {
  }

  lemma ServeInside(oracle: Oracle, k: nat, s: seq<byte>)
    ensures Serve(oracle, k, s).used <= |s|
  {
  }

  /** Serving, one command at a time. */
  lemma ServeOne(oracle: Oracle, k: nat, s: seq<byte>)
    ensures Parse(s).More? ==> Serve(oracle, k, s) == Served(0, [], [], false, None)
    ensures Parse(s).Wrong? ==> Serve(oracle, k, s) == Served(0, [], Refusal(Parse(s).bad), true, Some(Parse(s).bad))
    ensures Parse(s).Done? ==>
      && 0 < Parse(s).used <= |s|
      && (forall i :: 0 <= i < |Parse(s).args| ==> Parse(s).args[i].at + Parse(s).args[i].len <= |s|)
      && var a := Run(oracle, k, Texts(s, Parse(s).args));
      Serve(oracle, k, s) ==
        if a.last then Served(Parse(s).used, a.calls, a.reply, true, None)
        else After(Parse(s).used, a.calls, a.reply, Serve(oracle, k + |a.calls|, s[Parse(s).used..]))
  {
    hide Parse, Texts, Run;
    if Parse(s).Done? {
      DoneIsInside(s);
    }
  }

  /** Serving that has ended is not changed by what follows, unless it ended over a line too long to wait for. */
  lemma {:induction false} ServeHasEnded(oracle: Oracle, k: nat, p: seq<byte>, b: seq<byte>)
    requires Serve(oracle, k, p).closing && Serve(oracle, k, p).bad != Some(NoNewline)
    ensures Serve(oracle, k, p + b) == Serve(oracle, k, p)
    decreases |p|
  {
    hide Parse, Texts, Run;
    if Parse(p).Done? {
      DoneWithMore(p, b);
      var n, a := Parse(p).used, Run(oracle, k, Texts(p, Parse(p).args));
      if !a.last {
        ServeHasEnded(oracle, k + |a.calls|, p[n..], b);
      }
    } else {
      assert (p + b)[..|p|] == p;
      ParseIsStable(p, p + b);
    }
  }

  // ---------------------------------------------------------------------------------------------
  // Commands sent end to end
  // ---------------------------------------------------------------------------------------------

  predicate Sendable(args: seq<seq<byte>>)
  {
    args != [] && |args| <= MAX_ARGS && Fits(args, |Header(STAR, |args|)|)
  }

  function Pipeline(commands: seq<seq<seq<byte>>>): (s: seq<byte>)
  {
    if commands == [] then [] else Request(commands[0]) + Pipeline(commands[1..])
  }

  /** What commands come to, run in order until one is the last. */
  function InTurn(oracle: Oracle, k: nat, commands: seq<seq<seq<byte>>>): (r: Ran)
    decreases |commands|
  {
    if commands == [] then Ran([], [], false)
    else
      var a := oracle(k, commands[0]);
      if a.last then Ran([commands[0]], a.reply, true)
      else
        var r := InTurn(oracle, k + 1, commands[1..]);
        Ran([commands[0]] + r.calls, a.reply + r.reply, r.last)
  }

  /** Commands written one after another are each run once, in order, with the arguments they were written
      with, up to one that is the last; and when none is, every byte is used. */
  lemma {:induction false} PipelineIsServed(oracle: Oracle, k: nat, commands: seq<seq<seq<byte>>>)
    requires forall i :: 0 <= i < |commands| ==> Sendable(commands[i])
    ensures
      var r := Serve(oracle, k, Pipeline(commands));
      && Ran(r.calls, r.reply, r.closing) == InTurn(oracle, k, commands)
      && r.bad.None? && (!r.closing ==> r.calls == commands && r.used == |Pipeline(commands)|)
    decreases |commands|
  {
    hide Parse, Texts, Request, Fits, Places, Serve, After;
    ServeOne(oracle, k, Pipeline(commands));
    if commands == [] {
      NothingToParse();
    } else {
      var args, rest := commands[0], Pipeline(commands[1..]);
      RequestRoundTrip(args, rest);
      PlaceEach(args, |Header(STAR, |args|)|);
      PipelineIsServed(oracle, k + 1, commands[1..]);
      assert (Request(args) + rest)[|Request(args)|..] == rest;
      AfterParts(|Request(args)|, [args], oracle(k, args).reply, Serve(oracle, k + 1, rest));
    }
  }

  lemma NothingToParse()
    ensures Parse([]) == More
  {
  }

  /** What is served of the first bytes of some commands written end to end: whole commands from the front, in
      order, and then either the last there is to run, or less than one more command is left. */
  ghost predicate PartWay(oracle: Oracle, k: nat, commands: seq<seq<seq<byte>>>, d: seq<byte>, r: Served)
  {
    var all, n := InTurn(oracle, k, commands), |r.calls|;
    && r.bad.None? && r.calls <= all.calls && r.reply <= all.reply
    && (r.closing ==> Ran(r.calls, r.reply, true) == all)
    && (!r.closing ==>
         && n <= |commands| && r.calls == commands[..n]
         && r.used <= |Pipeline(commands)| && Pipeline(commands)[r.used..] == Pipeline(commands[n..])
         && (n < |commands| ==> |d| - r.used < |Request(commands[n])|)
         && (n == |commands| ==> r.used == |d| && Ran(r.calls, r.reply, false) == all))
  }

  lemma {:induction false} PipelinePrefix(oracle: Oracle, k: nat, commands: seq<seq<seq<byte>>>, d: seq<byte>)
    requires forall i :: 0 <= i < |commands| ==> Sendable(commands[i])
    requires d <= Pipeline(commands)
    ensures PartWay(oracle, k, commands, d, Serve(oracle, k, d))
    decreases |commands|
  {
    hide Parse, Texts, Request, Fits, Places, Serve, After, PartWay;
    ServeOne(oracle, k, d);
    if commands == [] {
      NothingToParse();
      NothingPartWay(oracle, k);
    } else {
      var args, rest := commands[0], Pipeline(commands[1..]);
      var whole := Request(args) + rest;
      RequestRoundTrip(args, rest);
      PlaceEach(args, |Header(STAR, |args|)|);
      RequestStarts(args);
      assert whole[..|d|] == d;
      if |d| < |Request(args)| {
        ShorterIsMore(whole, |d|);
        assert whole[0] == Request(args)[0];
        NoneYet(oracle, k, commands, d);
      } else {
        EnoughIsDone(whole, |d|);
        var e := d[|Request(args)|..];
        assert e <= rest by {
          assert whole[|Request(args)|..] == rest;
        }
        PipelinePrefix(oracle, k + 1, commands[1..], e);
        assert d == Request(args) + e;
        RequestRoundTrip(args, e);
        OneMorePartWay(oracle, k, commands, d, e);
      }
    }
  }

  lemma RequestStarts(args: seq<seq<byte>>)
    ensures |Request(args)| > 0 && Request(args)[0] == STAR
  {
  }

  lemma NothingPartWay(oracle: Oracle, k: nat)
    ensures PartWay(oracle, k, [], [], Served(0, [], [], false, None))
  {
  }

  lemma NoneYet(oracle: Oracle, k: nat, commands: seq<seq<seq<byte>>>, d: seq<byte>)
    requires commands != [] && |d| < |Request(commands[0])|
    ensures PartWay(oracle, k, commands, d, Served(0, [], [], false, None))
  {
    hide Request, InTurn;
    assert commands[..0] == [] && commands[0..] == commands;
    assert Pipeline(commands)[0..] == Pipeline(commands);
  }

  lemma OneMorePartWay(oracle: Oracle, k: nat, commands: seq<seq<seq<byte>>>, d: seq<byte>, e: seq<byte>)
    requires commands != [] && commands[0] != [] && d == Request(commands[0]) + e
    requires PartWay(oracle, k + 1, commands[1..], e, Serve(oracle, k + 1, e))
    requires
      var a := Run(oracle, k, commands[0]);
      Serve(oracle, k, d) ==
        if a.last then Served(|Request(commands[0])|, a.calls, a.reply, true, None)
        else After(|Request(commands[0])|, a.calls, a.reply, Serve(oracle, k + |a.calls|, e))
    ensures PartWay(oracle, k, commands, d, Serve(oracle, k, d))
  {
    hide Request, Serve;
    var args, more := commands[0], commands[1..];
    var a := oracle(k, args);
    if !a.last {
      var q, r := Serve(oracle, k + 1, e), Serve(oracle, k, d);
      assert r.calls == [args] + q.calls && r.reply == a.reply + q.reply;
      if !r.closing {
        var n := |q.calls|;
        assert commands[..n + 1] == [args] + more[..n];
        assert commands[n + 1..] == more[n..];
        assert Pipeline(commands)[r.used..] == Pipeline(more)[q.used..];
      }
    }
  }
}
