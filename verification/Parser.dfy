/** The loops that parse and write commands, and the wide newline scan. */
module Parser {
  import opened Bytes
  import opened Resp
  import Decimal
  import Group

  /** An argument list, cleared and filled again by each parse. */
  class Command {
    var args: seq<Span>

    constructor ()
      ensures args == []
    {
      args := [];
    }

    method Clear()
      modifies this
      ensures args == []
    {
      args := [];
    }

    /** Record an argument, unless there are too many or it lies too far in to be said. */
    method Push(at: nat, len: nat) returns (bad: Option<Bad>)
      modifies this
      ensures bad == Refuses(|old(args)|, Span(at, len))
      ensures args == if bad.None? then old(args) + [Span(at, len)] else old(args)
    {
      if |args| >= MAX_ARGS {
        return Some(TooManyArguments);
      }
      if at >= NARROW || len >= NARROW {
        return Some(TooLong);
      }
      args := args + [Span(at, len)];
      return None;
    }

    /** One argument, out of the buffer it was parsed from. */
    method Arg(n: nat, buf: seq<byte>) returns (text: Option<seq<byte>>)
      ensures text.Some? <==> n < |args| && args[n].at + args[n].len <= |buf|
      ensures text.Some? ==> text.value == buf[args[n].at..args[n].at + args[n].len]
    {
      if n >= |args| || args[n].at + args[n].len > |buf| {
        return None;
      }
      return Some(buf[args[n].at..args[n].at + args[n].len]);
    }
  }

  /** What a parse reports: the bytes of a whole command, that more is wanted, or what is wrong. */
  ghost predicate Reports(r: Result<Option<nat>, Bad>, args: seq<Span>, want: Parsed)
  {
    match want
    case Done(used, found) => r == Ok(Some(used)) && args == found
    case More => r == Ok(None)
    case Wrong(bad) => r == Err(bad)
  }

  /** One command off the front of `buf`, its arguments left in `into`. */
  method ParseInto(buf: seq<byte>, into: Command) returns (r: Result<Option<nat>, Bad>)
    modifies into
    ensures Reports(r, into.args, Parse(buf))
  {
    hide Array, Inline;
    into.Clear();
    if |buf| == 0 {
      return Ok(None);
    }
    if buf[0] == STAR {
      r := ParseArray(buf, into);
    } else {
      r := ParseInline(buf, into);
    }
  }

  method ParseArray(buf: seq<byte>, into: Command) returns (r: Result<Option<nat>, Bad>)
    requires buf != [] && buf[0] == STAR && into.args == []
    modifies into
    ensures Reports(r, into.args, Array(buf))
  {
    hide Decimal.Lenient, Newline, Bulks, ElementAt;
    var first := Line(buf, 0);
    if first.None? {
      return Ok(None);
    }
    HeaderIsNotEmpty(buf);
    var number := Decimal.ReadLenient(first.value.text[1..]);
    if number.None? {
      return Err(NotANumber);
    }
    var at: nat := first.value.next;
    if number.value < 0 {
      NoMoreBulks(buf, at, [], false);
      return Ok(Some(at));
    }
    var count := number.value;
    if count > MAX_ARGS {
      return Err(TooManyArguments);
    }
    ghost var whole := Bulks(buf, at, count, [], false);
    for n := 0 to count
      invariant |into.args| == n && at <= |buf|
      invariant Bulks(buf, at, count - n, into.args, false) == whole
    {
      BulksStep(buf, at, count - n, into.args, false);
      var e := ReadElement(buf, at);
      if e.NotYet? {
        return Ok(None);
      }
      if e.Ill? {
        return Err(e.bad);
      }
      var bad := into.Push(e.next, e.len);
      if bad.Some? {
        return Err(bad.value);
      }
      at := e.next + e.len + 2;
    }
    NoMoreBulks(buf, at, into.args, false);
    return Ok(Some(at));
  }

  lemma NoMoreBulks(buf: seq<byte>, at: nat, args: seq<Span>, wide: bool)
    ensures Bulks(buf, at, 0, args, wide) == Done(at, args)
  {
  }

  /** One element: its header, and whether all of it is here. */
  method ReadElement(buf: seq<byte>, at: nat) returns (e: Element)
    ensures e == ElementAt(buf, at)
    ensures e.Here? ==> at < e.next && e.next + e.len + 2 <= |buf| && e.len <= MAX_BULK
  {
    hide Decimal.Lenient, Newline;
    var cut := Line(buf, at);
    if cut.None? {
      return NotYet;
    }
    var header, next := cut.value.text, cut.value.next;
    if |header| == 0 || header[0] != DOLLAR {
      return Ill(ExpectedBulk);
    }
    var len := Decimal.ReadLenient(header[1..]);
    if len.None? {
      return Ill(NotANumber);
    }
    if len.value < 0 || len.value > MAX_BULK {
      return Ill(TooLong);
    }
    if |buf| < next + len.value + 2 {
      return NotYet;
    }
    return Here(next, len.value);
  }

  method ParseInline(buf: seq<byte>, into: Command) returns (r: Result<Option<nat>, Bad>)
    requires into.args == []
    modifies into
    ensures Reports(r, into.args, Inline(buf))
  {
    hide IsWhite, Newline;
    var first := Line(buf, 0);
    if first.None? {
      if |buf| > MAX_INLINE {
        return Err(NoNewline);
      }
      return Ok(None);
    }
    var line, cursor := first.value.text, 0;
    ghost var whole := Record([], Words(line, 0));
    while cursor < |line|
      invariant cursor <= |line|
      invariant Record(into.args, Words(line, cursor)) == whole
    {
      if IsWhite(line[cursor]) {
        cursor := cursor + 1;
        continue;
      }
      var start := cursor;
      while cursor < |line| && !IsWhite(line[cursor])
        invariant start <= cursor <= |line|
        invariant WordEnd(line, start) == WordEnd(line, cursor)
        invariant cursor == start ==> !IsWhite(line[cursor])
      {
        cursor := cursor + 1;
      }
      ghost var span := Span(start, cursor - start);
      assert Words(line, start) == [span] + Words(line, cursor);
      assert ([span] + Words(line, cursor))[1..] == Words(line, cursor);
      var bad := into.Push(start, cursor - start);
      if bad.Some? {
        return Err(bad.value);
      }
    }
    return Ok(Some(first.value.next));
  }

  /** Where the command at the front ends and where its key is, keeping one span and no list. */
  method LookAhead(buf: seq<byte>) returns (r: Option<(nat, Option<Span>)>)
    ensures r == Peek(buf)
  {
    hide Decimal.Lenient, Newline, Bulks, ElementAt;
    if |buf| == 0 || buf[0] != STAR {
      return None;
    }
    var first := Line(buf, 0);
    if first.None? {
      return None;
    }
    HeaderIsNotEmpty(buf);
    var number := Decimal.ReadLenient(first.value.text[1..]);
    if number.None? || number.value < 0 || number.value > MAX_ARGS {
      return None;
    }
    var at: nat, count: nat := first.value.next, number.value;
    var key: Option<Span> := None;
    ghost var args: seq<Span> := [];
    ghost var whole := Bulks(buf, at, count, [], true);
    for n := 0 to count
      invariant |args| == n && key == KeyOf(args)
      invariant Bulks(buf, at, count - n, args, true) == whole
    {
      BulksStep(buf, at, count - n, args, true);
      var e := ReadElement(buf, at);
      if !e.Here? {
        return None;
      }
      if n == 1 {
        key := Some(Span(e.next, e.len));
      }
      args := args + [Span(e.next, e.len)];
      at := e.next + e.len + 2;
    }
    NoMoreBulks(buf, at, args, true);
    return Some((at, key));
  }

  // ---------------------------------------------------------------------------------------------
  // The encoder
  // ---------------------------------------------------------------------------------------------

  datatype Dialect = Resp2 | Resp3

  const PERCENT: byte := 37
  const UNDERSCORE: byte := 95

  class Encoder {
    var out: seq<byte>
    var dialect: Dialect

    constructor (out: seq<byte>, dialect: Dialect)
      ensures this.out == out && this.dialect == dialect
    {
      this.out, this.dialect := out, dialect;
    }

    method Count(mark: byte, len: nat)
      modifies `out
      ensures out == old(out) + Header(mark, len)
    {
      out := out + [mark];
      var digits := Decimal.Print(Saturated(len));
      out := out + digits + CRLF;
      assert out == old(out) + Header(mark, len);
    }

    method Array(len: nat)
      modifies `out
      ensures out == old(out) + Header(STAR, len)
    {
      Count(STAR, len);
    }

    method Bulk(bytes: seq<byte>)
      modifies `out
      ensures out == old(out) + Resp.Bulk(bytes)
    {
      hide Header;
      Count(DOLLAR, |bytes|);
      out := out + bytes + CRLF;
      assert out == old(out) + Resp.Bulk(bytes);
    }

    /** A map's header, which the older dialect spells as an array of twice as many. */
    method Map(len: nat)
      modifies `out
      ensures out == old(out) + if dialect == Resp2 then Header(STAR, 2 * len) else Header(PERCENT, len)
    {
      if dialect == Resp2 {
        Array(2 * len);
      } else {
        Count(PERCENT, len);
      }
    }

    /** A null, which the older dialect spells as a bulk string of length minus one. */
    method Null()
      modifies `out
      ensures out == old(out) + if dialect == Resp2 then [DOLLAR] + Decimal.Spell(-1) + CRLF else [UNDERSCORE] + CRLF
    {
      if dialect == Resp2 {
        var digits := Decimal.Print(-1);
        assert old(out) + ([DOLLAR] + digits + CRLF) == out + [DOLLAR] + digits + CRLF;
        out := out + [DOLLAR] + digits + CRLF;
      } else {
        assert old(out) + ([UNDERSCORE] + CRLF) == out + [UNDERSCORE] + CRLF;
        out := out + [UNDERSCORE] + CRLF;
      }
    }

    /** A whole command, as the caller of `Array` and `Bulk` writes it. */
    method Write(args: seq<seq<byte>>)
      modifies `out
      ensures out == old(out) + Request(args)
    {
      hide Header, BulkList, Resp.Bulk;
      Array(|args|);
      NoBulkList();
      ghost var headed := out;
      assert args[..0] == [] && headed + [] == headed;
      for n := 0 to |args|
        invariant out == headed + BulkList(args[..n])
      {
        BulkListMore(args, n);
        Bulk(args[n]);
        assert out == headed + (BulkList(args[..n]) + Resp.Bulk(args[n]));
      }
      assert args[..|args|] == args;
      assert out == old(out) + Request(args);
    }
  }

  lemma NoBulkList()
    ensures BulkList([]) == []
  {
  }

  lemma {:induction false} BulkListMore(args: seq<seq<byte>>, n: nat)
    requires n < |args|
    ensures BulkList(args[..n + 1]) == BulkList(args[..n]) + Resp.Bulk(args[n])
    decreases n
  {
    hide Resp.Bulk;
    var some := args[..n + 1];
    if n == 0 {
      assert some[1..] == [];
    } else {
      assert args[..n][1..] == args[1..][..n - 1] && some[1..] == args[1..][..n];
      BulkListMore(args[1..], n - 1);
    }
  }

  // ---------------------------------------------------------------------------------------------
  // The wide scan
  // ---------------------------------------------------------------------------------------------

  const LF: bv8 := 10

  /** The lowest lane a comparison marks does match: a borrow can only add a lane above one. */
  lemma LowestMarkMatches(lanes: seq<bv8>, x: bv8, i: nat)
    requires |lanes| == 8 && i < 8
    requires Group.Marked(Group.MatchByte(Group.Load(lanes), x), i)
    requires forall j :: 0 <= j < i ==> !Group.Marked(Group.MatchByte(Group.Load(lanes), x), j)
    ensures lanes[i] == x && forall j :: 0 <= j < i ==> lanes[j] != x
  {
    hide Group.MatchByte, Group.Load, Group.Marked;
    Group.MarkedExactly(lanes, x, i);
    forall j | 0 <= j < i
      ensures lanes[j] != x
    {
      Group.MarkedExactly(lanes, x, j);
    }
  }

  lemma NoMarkNoMatch(lanes: seq<bv8>, x: bv8)
    requires |lanes| == 8 && Group.MatchByte(Group.Load(lanes), x) == 0
    ensures x !in lanes
  {
    hide Group.MatchByte, Group.Load, Group.Marked;
    forall i | 0 <= i < 8
      ensures lanes[i] != x
    {
      Group.MarkedExactly(lanes, x, i);
      NothingMarked(i);
    }
  }

  lemma NothingMarked(i: nat)
    requires i < 8
    ensures !Group.Marked(0, i)
  {
  }

  /** Where the first newline is, eight bytes at a time. */
  method Scan(from: seq<bv8>) returns (r: Option<nat>)
    ensures r.None? <==> LF !in from
    ensures r.Some? ==> r.value < |from| && from[r.value] == LF && LF !in from[..r.value]
  {
    hide Group.MatchByte, Group.Load, Group.Marked;
    var at := 0;
    while at + 8 <= |from|
      invariant at <= |from| && LF !in from[..at]
    {
      var lanes := from[at..at + 8];
      Group.MarkedExactly(lanes, LF, 0);
      var found := Group.MatchByte(Group.Load(lanes), LF);
      if found != 0 {
        var lane := Group.Lowest(found);
        LowestMarkMatches(lanes, LF, lane.value);
        return Some(at + lane.value);
      }
      NoMarkNoMatch(lanes, LF);
      assert from[..at + 8] == from[..at] + lanes;
      at := at + 8;
    }
    while at < |from|
      invariant at <= |from| && LF !in from[..at]
    {
      if from[at] == LF {
        return Some(at);
      }
      at := at + 1;
    }
    assert from[..at] == from;
    return None;
  }
}
