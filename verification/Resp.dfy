/** Requests on the wire: an array of bulk strings or a line of words, parsed in place as spans. */
module Resp {
  import opened Bytes
  import Decimal

  const MAX_ARGS := 1024 * 1024
  const MAX_BULK := 512 * 1024 * 1024
  const MAX_INLINE := 64 * 1024
  /** A span's place and length are 32 bits wide. */
  const NARROW := 0x1_0000_0000

  const NEWLINE: byte := 10
  const RETURN: byte := 13
  const SPACE: byte := 32
  const STAR: byte := 42
  const DOLLAR: byte := 36

  datatype Span = Span(at: nat, len: nat)

  datatype Bad = NotANumber | TooLong | TooManyArguments | ExpectedBulk | NoNewline

  /** What one attempt finds: a whole command of `used` bytes, not yet a whole one, or wrong framing. */
  datatype Parsed = Done(used: nat, args: seq<Span>) | More | Wrong(bad: Bad)

  datatype Cut = Cut(text: seq<byte>, next: nat)

  // ---------------------------------------------------------------------------------------------
  // Lines
  // ---------------------------------------------------------------------------------------------

  /** Where the first newline at or after `at` is. */
  function Newline(buf: seq<byte>, at: nat): (end: Option<nat>)
    ensures end.Some? ==> at <= end.value < |buf| && buf[end.value] == NEWLINE
    ensures end.Some? ==> forall i :: at <= i < end.value ==> buf[i] != NEWLINE
    ensures end.None? ==> forall i :: at <= i < |buf| ==> buf[i] != NEWLINE
    decreases |buf| - at
  {
    if at >= |buf| then None
    else if buf[at] == NEWLINE then Some(at)
    else Newline(buf, at + 1)
  }

  /** The line starting at `at`, less its terminator, and where the next one starts. */
  function Line(buf: seq<byte>, at: nat): (cut: Option<Cut>)
    ensures cut.Some? ==> at < cut.value.next <= |buf| && |cut.value.text| < cut.value.next - at
  {
    match Newline(buf, at)
    case None => None
    case Some(end) =>
      Some(Cut(if end > at && buf[end - 1] == RETURN then buf[at..end - 1] else buf[at..end], end + 1))
  }

  ghost predicate PrefixOf(p: seq<byte>, buf: seq<byte>)
  {
    |p| <= |buf| && p == buf[..|p|]
  }

  /** A line is in a prefix exactly when its newline is. */
  lemma LineOfPrefix(p: seq<byte>, buf: seq<byte>, at: nat)
    requires PrefixOf(p, buf)
    ensures Line(p, at).Some? ==> Line(buf, at) == Line(p, at)
    ensures Line(buf, at).Some? ==> Line(p, at) == if Line(buf, at).value.next <= |p| then Line(buf, at) else None
  {
    forall i | 0 <= i < |p|
      ensures p[i] == buf[i]
    {
    }
    if Line(p, at).Some? {
      var end := Newline(p, at).value;
      assert Newline(buf, at) == Some(end);
      assert p[at..end] == buf[at..end];
      assert end > at ==> p[at..end - 1] == buf[at..end - 1];
    }
  }

  // ---------------------------------------------------------------------------------------------
  // The array form
  // ---------------------------------------------------------------------------------------------

  /** The length a bulk header announces. */
  function BulkLength(header: seq<byte>): (r: Result<nat, Bad>)
    ensures r.Ok? ==> r.value <= MAX_BULK
  {
    if header == [] || header[0] != DOLLAR then Err(ExpectedBulk)
    else
      var len := Decimal.Lenient(header[1..]);
      if len.None? then Err(NotANumber)
      else if len.value < 0 || len.value > MAX_BULK then Err(TooLong)
      else Ok(len.value)
  }

  /** What stands at one element's place: not all of it yet, wrong framing, or `len` bytes at `next`. */
  datatype Element = NotYet | Ill(bad: Bad) | Here(next: nat, len: nat)

  function ElementAt(buf: seq<byte>, at: nat): (e: Element)
    ensures e.Here? ==> at < e.next && e.next + e.len + 2 <= |buf| && e.len <= MAX_BULK
    ensures e.Ill? ==> e.bad != NoNewline
  {
    match Line(buf, at)
    case None => NotYet
    case Some(cut) =>
      match BulkLength(cut.text)
      case Err(bad) => Ill(bad)
      case Ok(len) => if |buf| < cut.next + len + 2 then NotYet else Here(cut.next, len)
  }

  /** `count` bulk strings from `at` on, after the arguments already found. Unless `wide`, an argument has to
      start where a span can say. */
  function Bulks(buf: seq<byte>, at: nat, count: nat, args: seq<Span>, wide: bool): (r: Parsed)
    ensures r.Done? ==> at <= r.used && |r.args| == |args| + count && args <= r.args
    ensures r.Done? && at <= |buf| ==> r.used <= |buf|
    ensures r.Done? ==>
        forall i :: |args| <= i < |r.args| ==> at <= r.args[i].at && r.args[i].at + r.args[i].len + 2 <= r.used
    ensures r.Wrong? ==> r.bad != NoNewline
    decreases count
  {
    if count == 0 then Done(at, args)
    else
      match ElementAt(buf, at)
      case NotYet => More
      case Ill(bad) => Wrong(bad)
      case Here(next, len) =>
        if !wide && next >= NARROW then Wrong(TooLong)
        else Bulks(buf, next + len + 2, count - 1, args + [Span(next, len)], wide)
  }

  /** How many elements an array header announces; a negative count is an array of none. */
  function Count(header: seq<byte>): (r: Result<nat, Bad>)
    requires header != []
    ensures r.Ok? ==> r.value <= MAX_ARGS
  {
    var count := Decimal.Lenient(header[1..]);
    if count.None? then Err(NotANumber)
    else if count.value < 0 then Ok(0)
    else if count.value > MAX_ARGS then Err(TooManyArguments)
    else Ok(count.value)
  }

  lemma HeaderIsNotEmpty(buf: seq<byte>)
    requires buf != [] && buf[0] == STAR && Line(buf, 0).Some?
    ensures |Line(buf, 0).value.text| > 0 && Line(buf, 0).value.text[0] == STAR
  {
  }

  function Array(buf: seq<byte>): (r: Parsed)
    requires buf != [] && buf[0] == STAR
  {
    match Line(buf, 0)
    case None => More
    case Some(cut) =>
      HeaderIsNotEmpty(buf);
      match Count(cut.text)
      case Err(bad) => Wrong(bad)
      case Ok(count) => Bulks(buf, cut.next, count, [], false)
  }

  /** An element is in a prefix exactly when all of it is. */
  lemma ElementOfPrefix(p: seq<byte>, buf: seq<byte>, at: nat)
    requires PrefixOf(p, buf)
    ensures !ElementAt(p, at).NotYet? ==> ElementAt(buf, at) == ElementAt(p, at)
    ensures var e := ElementAt(buf, at);
            e.Here? ==> ElementAt(p, at) == if e.next + e.len + 2 <= |p| then e else NotYet
  {
    hide BulkLength;
    LineOfPrefix(p, buf, at);
  }

  /** What a prefix holds of an array that goes on. */
  lemma {:induction false} BulksOfPrefix(p: seq<byte>, buf: seq<byte>, at: nat, count: nat, args: seq<Span>, wide: bool)
    requires PrefixOf(p, buf) && at <= |p|
    ensures !Bulks(p, at, count, args, wide).More? ==>
        Bulks(buf, at, count, args, wide) == Bulks(p, at, count, args, wide)
    ensures var r := Bulks(buf, at, count, args, wide);
            r.Done? ==> Bulks(p, at, count, args, wide) == if r.used <= |p| then r else More
    decreases count
  {
    hide ElementAt, PrefixOf;
    if count > 0 {
      ElementOfPrefix(p, buf, at);
      var e := ElementAt(p, at);
      if e.Here? && (wide || e.next < NARROW) {
        BulksOfPrefix(p, buf, e.next + e.len + 2, count - 1, args + [Span(e.next, e.len)], wide);
      }
    }
  }

  // ---------------------------------------------------------------------------------------------
  // The inline form
  // ---------------------------------------------------------------------------------------------

  predicate IsWhite(b: byte) { b == SPACE || b == 9 || b == NEWLINE || b == 12 || b == RETURN }

  /** Where the word that `at` is in ends. */
  function WordEnd(line: seq<byte>, at: nat): (end: nat)
    requires at <= |line|
    ensures at <= end <= |line|
    ensures forall i :: at <= i < end ==> !IsWhite(line[i])
    ensures end < |line| ==> IsWhite(line[end])
    decreases |line| - at
  {
    if at == |line| || IsWhite(line[at]) then at else WordEnd(line, at + 1)
  }

  /** The words of a line from `at` on. */
  function Words(line: seq<byte>, at: nat): (spans: seq<Span>)
    requires at <= |line|
    decreases |line| - at
  {
    if at == |line| then []
    else if IsWhite(line[at]) then Words(line, at + 1)
    else
      var end := WordEnd(line, at);
      assert end > at;
      [Span(at, end - at)] + Words(line, end)
  }

  predicate Covered(spans: seq<Span>, i: nat)
  {
    exists k :: 0 <= k < |spans| && spans[k].at <= i < spans[k].at + spans[k].len
  }

  lemma CoveredByMore(first: Span, rest: seq<Span>, i: nat)
    ensures Covered([first] + rest, i) <==> first.at <= i < first.at + first.len || Covered(rest, i)
  {
    var spans := [first] + rest;
    if Covered(rest, i) {
      var k :| 0 <= k < |rest| && rest[k].at <= i < rest[k].at + rest[k].len;
      assert spans[k + 1] == rest[k];
    }
    assert spans[0] == first;
  }

  /** A span of some bytes between two places. */
  predicate Within(span: Span, from: nat, to: nat)
  {
    from <= span.at && 0 < span.len && span.at + span.len <= to
  }

  /** `spans` are exactly the runs of bytes of `line` from `at` on that are not white: none is empty, at least
      one white byte parts each from the next, and a byte is in one of them if and only if it is not white. */
  ghost predicate AreWords(line: seq<byte>, at: nat, spans: seq<Span>)
  {
    && (forall k :: 0 <= k < |spans| ==> Within(spans[k], at, |line|))
    && (forall k :: 0 <= k < |spans| - 1 ==> spans[k].at + spans[k].len < spans[k + 1].at)
    && (forall i :: at <= i < |line| ==> (!IsWhite(line[i]) <==> Covered(spans, i)))
  }

  /** The words found are the words there are. */
  lemma {:induction false} WordsAreWords(line: seq<byte>, at: nat)
    requires at <= |line|
    ensures AreWords(line, at, Words(line, at))
    decreases |line| - at
  {
    hide IsWhite, AreWords;
    if at == |line| {
      NoWords(line);
    } else {
      if IsWhite(line[at]) {
        WordsAreWords(line, at + 1);
        OneWhiteMore(line, at, Words(line, at + 1));
      } else {
        var end := WordEnd(line, at);
        WordsAreWords(line, end);
        OneWordMore(line, at, end, Words(line, end));
      }
    }
  }

  lemma NoWords(line: seq<byte>)
    ensures AreWords(line, |line|, [])
  {
  }

  lemma OneWhiteMore(line: seq<byte>, at: nat, rest: seq<Span>)
    requires at < |line| && IsWhite(line[at]) && AreWords(line, at + 1, rest)
    ensures AreWords(line, at, rest)
  {
    hide IsWhite;
  }

  lemma OneWordMore(line: seq<byte>, at: nat, end: nat, rest: seq<Span>)
    requires at < end <= |line| && AreWords(line, end, rest)
    requires forall i :: at <= i < end ==> !IsWhite(line[i])
    requires end < |line| ==> IsWhite(line[end])
    ensures AreWords(line, at, [Span(at, end - at)] + rest)
  {
    hide IsWhite, Covered;
    var spans := [Span(at, end - at)] + rest;
    forall i | at <= i < |line|
      ensures !IsWhite(line[i]) <==> Covered(spans, i)
    {
      CoveredByMore(Span(at, end - at), rest, i);
    }
    if rest != [] {
      CoveredByMore(rest[0], rest[1..], rest[0].at);
      assert [rest[0]] + rest[1..] == rest;
      assert !IsWhite(line[rest[0].at]);
    }
  }

  /** Why an argument cannot be recorded after `n` others. */
  function Refuses(n: nat, span: Span): (bad: Option<Bad>)
  {
    if n >= MAX_ARGS then Some(TooManyArguments)
    else if span.at >= NARROW || span.len >= NARROW then Some(TooLong)
    else None
  }

  /** Record arguments in turn, stopping at the first that cannot be. */
  function Record(args: seq<Span>, spans: seq<Span>): (r: Result<seq<Span>, Bad>)
    ensures r.Ok? ==> r.value == args + spans
    decreases |spans|
  {
    if spans == [] then Ok(args)
    else if Refuses(|args|, spans[0]).Some? then Err(Refuses(|args|, spans[0]).value)
    else Record(args + [spans[0]], spans[1..])
  }

  function Inline(buf: seq<byte>): (r: Parsed)
  {
    match Line(buf, 0)
    case None => if |buf| > MAX_INLINE then Wrong(NoNewline) else More
    case Some(cut) =>
      match Record([], Words(cut.text, 0))
      case Err(bad) => Wrong(bad)
      case Ok(args) => Done(cut.next, args)
  }

  // ---------------------------------------------------------------------------------------------
  // Commands
  // ---------------------------------------------------------------------------------------------

  /** One command off the front of `buf`. */
  function Parse(buf: seq<byte>): (r: Parsed)
  {
    if buf == [] then More
    else if buf[0] == STAR then Array(buf)
    else Inline(buf)
  }

  /** The arguments themselves. */
  function Texts(buf: seq<byte>, args: seq<Span>): (texts: seq<seq<byte>>)
    requires forall i :: 0 <= i < |args| ==> args[i].at + args[i].len <= |buf|
    ensures |texts| == |args|
  {
    seq(|args|, i requires 0 <= i < |args| => buf[args[i].at..args[i].at + args[i].len])
  }

  /** Every argument of a whole command lies inside the bytes the command takes up. */
  lemma DoneIsInside(buf: seq<byte>)
    requires Parse(buf).Done?
    ensures 0 < Parse(buf).used <= |buf| && |Parse(buf).args| <= MAX_ARGS
    ensures forall i :: 0 <= i < |Parse(buf).args| ==>
              var a := Parse(buf).args[i];
              a.at + a.len <= Parse(buf).used && a.at < NARROW && a.len < NARROW
  {
    hide Decimal.Lenient, IsWhite, ElementAt, Newline, WordEnd;
    if buf[0] == STAR {
      HeaderIsNotEmpty(buf);
      var cut := Line(buf, 0).value;
      NarrowBulks(buf, cut.next, Count(cut.text).value, []);
    } else {
      var text := Line(buf, 0).value.text;
      WordsAreWords(text, 0);
      NarrowRecord([], Words(text, 0));
    }
  }

  ghost predicate AllNarrow(args: seq<Span>)
  {
    forall i :: 0 <= i < |args| ==> args[i].at < NARROW && args[i].len < NARROW
  }

  lemma {:induction false} NarrowBulks(buf: seq<byte>, at: nat, count: nat, args: seq<Span>)
    requires AllNarrow(args)
    ensures var r := Bulks(buf, at, count, args, false); r.Done? ==> AllNarrow(r.args)
    decreases count
  {
    hide BulkLength, Line;
    if count > 0 {
      var e := ElementAt(buf, at);
      if e.Here? && e.next < NARROW {
        NarrowBulks(buf, e.next + e.len + 2, count - 1, args + [Span(e.next, e.len)]);
      }
    }
  }

  lemma {:induction false} NarrowRecord(args: seq<Span>, spans: seq<Span>)
    requires AllNarrow(args) && |args| <= MAX_ARGS
    ensures Record(args, spans).Ok? ==> AllNarrow(args + spans) && |args + spans| <= MAX_ARGS
    decreases |spans|
  {
    if spans != [] && Refuses(|args|, spans[0]).None? {
      NarrowRecord(args + [spans[0]], spans[1..]);
      assert args + [spans[0]] + spans[1..] == args + spans;
    } else {
      assert spans == [] ==> args + spans == args;
    }
  }

  /** What is found does not change when more arrives, but that a line too long to wait for may yet end. */
  lemma ParseIsStable(p: seq<byte>, buf: seq<byte>)
    requires PrefixOf(p, buf) && !Parse(p).More?
    ensures Parse(p) != Wrong(NoNewline) ==> Parse(buf) == Parse(p)
    ensures Parse(p) == Wrong(NoNewline) ==> (Parse(buf) == Parse(p) <==> Newline(buf, 0).None?)
  {
    hide Words, Record, Bulks, Decimal.Lenient, ElementAt, IsWhite;
    assert buf != [] && buf[0] == p[0];
    LineOfPrefix(p, buf, 0);
    if p[0] == STAR {
      HeaderIsNotEmpty(p);
      var cut := Line(p, 0).value;
      if Count(cut.text).Ok? {
        BulksOfPrefix(p, buf, cut.next, Count(cut.text).value, [], false);
        NotALine(p, cut.next, Count(cut.text).value);
      }
    } else {
      if Line(buf, 0).Some? {
        RecordIsNotALine([], Words(Line(buf, 0).value.text, 0));
      }
    }
  }

  lemma NotALine(buf: seq<byte>, at: nat, count: nat)
    ensures Bulks(buf, at, count, [], false) != Wrong(NoNewline)
  {
  }

  lemma {:induction false} RecordIsNotALine(args: seq<Span>, spans: seq<Span>)
    ensures Record(args, spans) != Err(NoNewline)
    decreases |spans|
  {
    if spans != [] {
      RecordIsNotALine(args + [spans[0]], spans[1..]);
    }
  }

  /** Every shorter prefix of a whole command asks for more, but that a line too long to wait for is refused. */
  lemma ShorterIsMore(buf: seq<byte>, k: nat)
    requires Parse(buf).Done? && k < Parse(buf).used
    ensures k <= |buf| && Parse(buf[..k]) == if buf[0] != STAR && k > MAX_INLINE then Wrong(NoNewline) else More
  {
    hide Words, Record, Bulks, Decimal.Lenient, ElementAt, IsWhite;
    DoneIsInside(buf);
    var p := buf[..k];
    LineOfPrefix(p, buf, 0);
    if k > 0 && buf[0] == STAR && Line(p, 0).Some? {
      HeaderIsNotEmpty(buf);
      var cut := Line(p, 0).value;
      BulksOfPrefix(p, buf, cut.next, Count(cut.text).value, [], false);
    }
  }

  /** A whole command is found by as soon as all of it is there. */
  lemma EnoughIsDone(buf: seq<byte>, k: nat)
    requires Parse(buf).Done? && Parse(buf).used <= k <= |buf|
    ensures Parse(buf[..k]) == Parse(buf)
  {
    hide Words, Record, Bulks, Decimal.Lenient, ElementAt, IsWhite;
    DoneIsInside(buf);
    var p := buf[..k];
    LineOfPrefix(p, buf, 0);
    if buf[0] == STAR {
      HeaderIsNotEmpty(buf);
      var cut := Line(buf, 0).value;
      FromHere(buf, cut.next, Count(cut.text).value);
      BulksOfPrefix(p, buf, cut.next, Count(cut.text).value, [], false);
    }
  }

  lemma FromHere(buf: seq<byte>, at: nat, count: nat)
    ensures var r := Bulks(buf, at, count, [], false); r.Done? ==> at <= r.used
  {
  }

  /** A line too long to wait for is refused or served according to how much of it had arrived. */
  lemma LongLineMayYetEnd()
    ensures
      var p := seq(MAX_INLINE + 1, _ => STAR + 1);
      Parse(p) == Wrong(NoNewline) && Parse(p + [NEWLINE]) == Done(MAX_INLINE + 2, [Span(0, MAX_INLINE + 1)])
  {
    hide Newline;
    var p: seq<byte> := seq(MAX_INLINE + 1, _ => STAR + 1);
    var q := p + [NEWLINE];
    NewlineIs(p, None);
    NewlineIs(q, Some(|p|));
    assert q[..|p|] == p;
    assert !IsWhite(STAR + 1);
    assert WordEnd(p, 0) == |p|;
    assert Words(p, |p|) == [];
    assert Words(p, 0) == [Span(0, |p|)];
    assert [Span(0, |p|)][1..] == [];
    assert [] + [Span(0, |p|)] == [Span(0, |p|)];
    assert Record([Span(0, |p|)], []) == Ok([Span(0, |p|)]);
  }

  lemma NewlineIs(buf: seq<byte>, end: Option<nat>)
    requires end.Some? ==> end.value < |buf| && buf[end.value] == NEWLINE
    requires forall i :: 0 <= i < (if end.Some? then end.value else |buf|) ==> buf[i] != NEWLINE
    ensures Newline(buf, 0) == end
  {
  }

  // ---------------------------------------------------------------------------------------------
  // Looking ahead
  // ---------------------------------------------------------------------------------------------

  /** Where the command at the front ends and where its key is, for an array read whole. */
  function Peek(buf: seq<byte>): (r: Option<(nat, Option<Span>)>)
  {
    if buf == [] || buf[0] != STAR then None
    else
      match Line(buf, 0)
      case None => None
      case Some(cut) =>
        HeaderIsNotEmpty(buf);
        var count := Decimal.Lenient(cut.text[1..]);
        if count.None? || count.value < 0 || count.value > MAX_ARGS then None
        else
          var all := Bulks(buf, cut.next, count.value, [], true);
          if all.Done? then Some((all.used, KeyOf(all.args))) else None
  }

  function KeyOf(args: seq<Span>): (key: Option<Span>)
  {
    if |args| > 1 then Some(args[1]) else None
  }

  /** The wide and the narrow readings part only over where an argument starts. */
  lemma {:induction false} WideAndNarrow(buf: seq<byte>, at: nat, count: nat, args: seq<Span>)
    requires AllNarrow(args)
    ensures var w := Bulks(buf, at, count, args, true);
            w.Done? ==> Bulks(buf, at, count, args, false) == if AllNarrow(w.args) then w else Wrong(TooLong)
    ensures var n := Bulks(buf, at, count, args, false);
            n.Done? ==> Bulks(buf, at, count, args, true) == n
    decreases count
  {
    hide Line, BulkLength;
    if count > 0 {
      var e := ElementAt(buf, at);
      if e.Here? {
        var more := args + [Span(e.next, e.len)];
        if e.next < NARROW {
          WideAndNarrow(buf, e.next + e.len + 2, count - 1, more);
        } else {
          var w := Bulks(buf, e.next + e.len + 2, count - 1, more, true);
          if w.Done? {
            assert w.args[|args|] == more[|args|];
          }
        }
      }
    }
  }

  /** An array read with no regard to where a span can say an argument starts. */
  function WideArray(buf: seq<byte>): (r: Parsed)
    requires buf != [] && buf[0] == STAR
  {
    match Line(buf, 0)
    case None => More
    case Some(cut) =>
      HeaderIsNotEmpty(buf);
      match Count(cut.text)
      case Err(bad) => Wrong(bad)
      case Ok(count) => Bulks(buf, cut.next, count, [], true)
  }

  /** What is seen ahead is a whole command and its second argument; the parse finds the same exactly when every
      argument starts where a span can say, and otherwise refuses; and every command of some arguments that the
      parse finds is seen ahead. */
  lemma PeekIsParse(buf: seq<byte>)
    ensures Peek(buf).Some? ==>
      && buf != [] && buf[0] == STAR
      && var w := WideArray(buf);
      && w.Done? && Peek(buf) == Some((w.used, if |w.args| > 1 then Some(w.args[1]) else None))
      && (Parse(buf).Done? <==> AllNarrow(w.args))
      && Parse(buf) == (if AllNarrow(w.args) then w else Wrong(TooLong))
      && (|buf| <= NARROW ==> AllNarrow(w.args))
    ensures Parse(buf).Done? && Parse(buf).args != [] && buf[0] == STAR ==> Peek(buf).Some?
  {
    hide Newline, Bulks, Decimal.Lenient;
    if buf != [] && buf[0] == STAR && Line(buf, 0).Some? {
      HeaderIsNotEmpty(buf);
      var cut := Line(buf, 0).value;
      var count := Count(cut.text);
      if count.Ok? {
        WideAndNarrow(buf, cut.next, count.value, []);
        InsideBulks(buf, cut.next, count.value);
      }
    }
  }

  lemma InsideBulks(buf: seq<byte>, at: nat, count: nat)
    requires at <= |buf|
    ensures var w := Bulks(buf, at, count, [], true);
            w.Done? && |buf| <= NARROW ==> AllNarrow(w.args)
    ensures count == 0 ==> Bulks(buf, at, count, [], true) == Bulks(buf, at, count, [], false) == Done(at, [])
    ensures Bulks(buf, at, count, [], false).Done? ==> |Bulks(buf, at, count, [], false).args| == count
  {
  }

  // ---------------------------------------------------------------------------------------------
  // Writing commands
  // ---------------------------------------------------------------------------------------------

  const CRLF: seq<byte> := [RETURN, NEWLINE]

  /** A length, which goes out saturated rather than negative. */
  function Saturated(n: nat): nat { if n > Decimal.MAX then Decimal.MAX else n }

  function Header(mark: byte, n: nat): (s: seq<byte>) { [mark] + Decimal.Spell(Saturated(n)) + CRLF }

  function Bulk(bytes: seq<byte>): (s: seq<byte>) { Header(DOLLAR, |bytes|) + bytes + CRLF }

  function BulkList(args: seq<seq<byte>>): (s: seq<byte>)
  {
    if args == [] then [] else Bulk(args[0]) + BulkList(args[1..])
  }

  /** A command as an array of bulk strings. */
  function Request(args: seq<seq<byte>>): (s: seq<byte>) { Header(STAR, |args|) + BulkList(args) }

  /** Every argument is short enough and starts where a span can say. */
  predicate Fits(args: seq<seq<byte>>, at: nat)
  {
    args == [] ||
    (|args[0]| <= MAX_BULK && at + |Header(DOLLAR, |args[0]|)| < NARROW && Fits(args[1..], at + |Bulk(args[0])|))
  }

  function Places(args: seq<seq<byte>>, at: nat): (spans: seq<Span>)
    ensures |spans| == |args|
  {
    if args == [] then []
    else [Span(at + |Header(DOLLAR, |args[0]|)|, |args[0]|)] + Places(args[1..], at + |Bulk(args[0])|)
  }

  /** `s` is what `buf` holds from `at` on. */
  ghost predicate HoldsAt(buf: seq<byte>, at: nat, s: seq<byte>)
  {
    at + |s| <= |buf| && buf[at..at + |s|] == s
  }

  lemma HoldsParts(buf: seq<byte>, at: nat, s: seq<byte>, t: seq<byte>)
    ensures HoldsAt(buf, at, s + t) <==> HoldsAt(buf, at, s) && HoldsAt(buf, at + |s|, t)
  {
    if HoldsAt(buf, at, s + t) {
      assert buf[at..at + |s|] == (s + t)[..|s|];
      assert buf[at + |s|..at + |s| + |t|] == (s + t)[|s|..];
    }
    if HoldsAt(buf, at, s) && HoldsAt(buf, at + |s|, t) {
      assert buf[at..at + |s| + |t|] == buf[at..at + |s|] + buf[at + |s|..at + |s| + |t|];
    }
  }

  /** A header is a line of its own and says what was counted. */
  lemma LineOfHeader(buf: seq<byte>, at: nat, mark: byte, n: nat)
    requires HoldsAt(buf, at, Header(mark, n)) && mark != NEWLINE
    ensures Line(buf, at) == Some(Cut([mark] + Decimal.Spell(Saturated(n)), at + |Header(mark, n)|))
  {
    hide Decimal.Spell, Line;
    SpelledInDigits(Saturated(n));
    LineOfText(buf, at, [mark] + Decimal.Spell(Saturated(n)));
  }

  ghost predicate OneLine(text: seq<byte>)
  {
    forall i :: 0 <= i < |text| ==> text[i] != NEWLINE
  }

  /** Bytes with no newline in them, and then a terminator, are a line. */
  lemma LineOfText(buf: seq<byte>, at: nat, text: seq<byte>)
    requires OneLine(text) && HoldsAt(buf, at, text + CRLF)
    ensures Line(buf, at) == Some(Cut(text, at + |text| + 2))
  {
    hide Newline;
    HoldsParts(buf, at, text, CRLF);
    var end := at + |text| + 1;
    assert buf[at..end - 1] == text;
    assert buf[end - 1..end + 1] == CRLF;
    assert buf[end - 1] == CRLF[0] && buf[end] == CRLF[1];
    forall i | at <= i < end
      ensures buf[i] != NEWLINE
    {
      if i < end - 1 {
        assert buf[i] == text[i - at];
      }
    }
    FirstNewline(buf, at, end);
  }

  lemma FirstNewline(buf: seq<byte>, at: nat, end: nat)
    requires at <= end < |buf| && buf[end] == NEWLINE && forall i :: at <= i < end ==> buf[i] != NEWLINE
    ensures Newline(buf, at) == Some(end)
  {
  }

  lemma SpelledInDigits(n: nat)
    ensures Decimal.AllDigits(Decimal.Spell(n))
    ensures n <= Decimal.MAX ==> Decimal.Lenient(Decimal.Spell(n)) == Some(n)
  {
    if n <= Decimal.MAX {
      Decimal.LenientOfSpell(n);
    }
  }

  lemma HeaderIsRead(mark: byte, n: nat)
    ensures var text := [mark] + Decimal.Spell(Saturated(n)); Decimal.Lenient(text[1..]) == Some(Saturated(n))
  {
    SpelledInDigits(Saturated(n));
    assert ([mark] + Decimal.Spell(Saturated(n)))[1..] == Decimal.Spell(Saturated(n));
  }

  /** One element read. */
  lemma BulksStep(buf: seq<byte>, at: nat, count: nat, spans: seq<Span>, wide: bool)
    requires count > 0
    ensures Bulks(buf, at, count, spans, wide) ==
      match ElementAt(buf, at)
      case NotYet => More
      case Ill(bad) => Wrong(bad)
      case Here(next, len) =>
        if !wide && next >= NARROW then Wrong(TooLong)
        else Bulks(buf, next + len + 2, count - 1, spans + [Span(next, len)], wide)
  {
    hide ElementAt;
  }

  lemma {:induction false} BulksOfList(buf: seq<byte>, at: nat, args: seq<seq<byte>>, spans: seq<Span>)
    requires HoldsAt(buf, at, BulkList(args))
    ensures Bulks(buf, at, |args|, spans, false) ==
      if Fits(args, at) then Done(at + |BulkList(args)|, spans + Places(args, at)) else Wrong(TooLong)
    decreases |args|
  {
    hide Bulks, Header, HoldsAt, ElementAt, Bulk, Fits, Places, BulkList;
    Unrolled(args, at);
    if args == [] {
      NoBulks(buf, at, spans);
    } else {
      var bytes, rest := args[0], args[1..];
      var next := at + |Header(DOLLAR, |bytes|)|;
      var span := Span(next, |bytes|);
      OneBulk(buf, at, bytes, BulkList(rest));
      BulksStep(buf, at, |args|, spans, false);
      if |bytes| <= MAX_BULK && next < NARROW {
        BulksOfList(buf, at + |Bulk(bytes)|, rest, spans + [span]);
        assert spans + [span] + Places(rest, at + |Bulk(bytes)|) == spans + ([span] + Places(rest, at + |Bulk(bytes)|));
      }
    }
  }

  /** Where the first of some arguments goes, and where that leaves the rest. */
  lemma Unrolled(args: seq<seq<byte>>, at: nat)
    ensures args == [] ==> BulkList(args) == [] && Fits(args, at) && Places(args, at) == []
    ensures args != [] ==>
      var next := at + |Header(DOLLAR, |args[0]|)|;
      var end := at + |Bulk(args[0])|;
      && end == next + |args[0]| + 2
      && BulkList(args) == Bulk(args[0]) + BulkList(args[1..])
      && (Fits(args, at) <==> |args[0]| <= MAX_BULK && next < NARROW && Fits(args[1..], end))
      && Places(args, at) == [Span(next, |args[0]|)] + Places(args[1..], end)
  {
    hide Header;
  }

  lemma NoBulks(buf: seq<byte>, at: nat, spans: seq<Span>)
    ensures Bulks(buf, at, 0, spans, false) == Done(at, spans + [])
  {
    assert spans + [] == spans;
  }

  lemma OneBulk(buf: seq<byte>, at: nat, bytes: seq<byte>, rest: seq<byte>)
    requires HoldsAt(buf, at, Bulk(bytes) + rest)
    ensures HoldsAt(buf, at + |Bulk(bytes)|, rest)
    ensures var next := at + |Header(DOLLAR, |bytes|)|;
            && ElementAt(buf, at) == (if |bytes| <= MAX_BULK then Here(next, |bytes|) else Ill(TooLong))
            && next + |bytes| + 2 <= |buf| && buf[next..next + |bytes|] == bytes
  {
    hide Decimal.Spell, Decimal.Lenient, Header;
    var header := Header(DOLLAR, |bytes|);
    HoldsParts(buf, at, Bulk(bytes), rest);
    HoldsParts(buf, at, header + bytes, CRLF);
    HoldsParts(buf, at, header, bytes);
    LineOfHeader(buf, at, DOLLAR, |bytes|);
    HeaderIsRead(DOLLAR, |bytes|);
  }

  lemma {:induction false} TextsOfPlaces(buf: seq<byte>, at: nat, args: seq<seq<byte>>)
    requires HoldsAt(buf, at, BulkList(args))
    ensures forall i :: 0 <= i < |args| ==>
      var span := Places(args, at)[i];
      span.at + span.len <= |buf| && buf[span.at..span.at + span.len] == args[i]
    decreases |args|
  {
    hide Header, HoldsAt, ElementAt, Bulk, BulkList, Fits;
    if args != [] {
      Unrolled(args, at);
      OneBulk(buf, at, args[0], BulkList(args[1..]));
      TextsOfPlaces(buf, at + |Bulk(args[0])|, args[1..]);
    }
  }

  /** A command that was written comes back whole, its own length and no more, exactly when it has few enough
      arguments, short enough, none starting too far in; and is refused otherwise. */
  lemma RequestRoundTrip(args: seq<seq<byte>>, rest: seq<byte>)
    ensures
      var buf := Request(args) + rest;
      var start := |Header(STAR, |args|)|;
      if |args| > MAX_ARGS then Parse(buf) == Wrong(TooManyArguments)
      else if !Fits(args, start) then Parse(buf) == Wrong(TooLong)
      else
        && Parse(buf) == Done(|Request(args)|, Places(args, start))
        && (forall i :: 0 <= i < |args| ==> Places(args, start)[i].at + Places(args, start)[i].len <= |buf|)
        && Texts(buf, Places(args, start)) == args
  {
    hide Parse, HoldsAt, Fits, Places, BulkList, Bulks, Header, Texts;
    var buf := Request(args) + rest;
    var start := |Header(STAR, |args|)|;
    StartsWith(Request(args), rest);
    HoldsParts(buf, 0, Header(STAR, |args|), BulkList(args));
    ArrayOfHeader(buf, |args|);
    if |args| <= MAX_ARGS {
      BulksOfList(buf, start, args, []);
      TextsOfPlaces(buf, start, args);
      PlaceEach(args, start);
      TextsAre(buf, Places(args, start), args);
      assert [] + Places(args, start) == Places(args, start);
    }
  }

  lemma PlaceEach(args: seq<seq<byte>>, at: nat)
    ensures |Places(args, at)| == |args|
  {
  }

  lemma TextsAre(buf: seq<byte>, spans: seq<Span>, args: seq<seq<byte>>)
    requires |spans| == |args|
    requires forall i :: 0 <= i < |args| ==>
        spans[i].at + spans[i].len <= |buf| && buf[spans[i].at..spans[i].at + spans[i].len] == args[i]
    ensures Texts(buf, spans) == args
  {
  }

  /** What follows an array's header is as many elements as it counts. */
  lemma ArrayOfHeader(buf: seq<byte>, n: nat)
    requires HoldsAt(buf, 0, Header(STAR, n))
    ensures Parse(buf) == if n > MAX_ARGS then Wrong(TooManyArguments) else Bulks(buf, |Header(STAR, n)|, n, [], false)
  {
    hide Decimal.Spell, Decimal.Lenient, Line, Bulks;
    LineOfHeader(buf, 0, STAR, n);
    HeaderIsRead(STAR, n);
    assert buf[0] == Header(STAR, n)[0];
  }

  lemma StartsWith(s: seq<byte>, rest: seq<byte>)
    ensures HoldsAt(s + rest, 0, s)
  {
  }

  predicate AllShort(args: seq<seq<byte>>)
  {
    forall i :: 0 <= i < |args| ==> |args[i]| <= MAX_BULK
  }

  lemma {:induction false} WideBulksOfList(buf: seq<byte>, at: nat, args: seq<seq<byte>>, spans: seq<Span>)
    requires HoldsAt(buf, at, BulkList(args)) && AllShort(args)
    ensures Bulks(buf, at, |args|, spans, true).Done?
    decreases |args|
  {
    hide Bulks, Header, HoldsAt, ElementAt, Bulk, Fits, Places, BulkList;
    Unrolled(args, at);
    if args == [] {
      NothingLeft(buf, at, spans);
    } else {
      var bytes, rest := args[0], args[1..];
      OneBulk(buf, at, bytes, BulkList(rest));
      BulksStep(buf, at, |args|, spans, true);
      WideBulksOfList(buf, at + |Bulk(bytes)|, rest, spans + [Span(at + |Header(DOLLAR, |bytes|)|, |bytes|)]);
    }
  }

  lemma NothingLeft(buf: seq<byte>, at: nat, spans: seq<Span>)
    ensures Bulks(buf, at, 0, spans, true) == Done(at, spans)
  {
  }

  /** Arguments as long as may be reach four gibibytes after eight of them. */
  lemma {:induction false} FitsIsNear(args: seq<seq<byte>>, at: nat)
    requires Fits(args, at) && args != [] && forall i :: 0 <= i < |args| ==> |args[i]| == MAX_BULK
    ensures at + MAX_BULK * (|args| - 1) < NARROW
    decreases |args|
  {
    hide Header, Bulk;
    Unrolled(args, at);
    if |args| > 1 {
      FitsIsNear(args[1..], at + |Bulk(args[0])|);
    }
  }

  /** A command that is seen ahead and refused by the parse: nine arguments of the greatest length, the last of
      which starts past four gibibytes. */
  lemma SeenAheadAndRefused()
    ensures
      var args := seq(9, _ => seq(MAX_BULK, _ => 0 as byte));
      Peek(Request(args)).Some? && Parse(Request(args)) == Wrong(TooLong)
  {
    hide Decimal.Lenient, Decimal.Spell, Fits, Places, BulkList, Bulks, HoldsAt, Texts, Line, Header;
    var args: seq<seq<byte>> := seq(9, _ => seq(MAX_BULK, _ => 0 as byte));
    NineAreFar(args);
    var buf, start := Request(args), |Header(STAR, 9)|;
    assert buf + [] == buf;
    RequestRoundTrip(args, []);
    StartsWith(buf, []);
    HoldsParts(buf, 0, Header(STAR, 9), BulkList(args));
    WideBulksOfList(buf, start, args, []);
    PeekOfHeader(buf, 9);
  }

  lemma NineAreFar(args: seq<seq<byte>>)
    requires |args| == 9 && forall i :: 0 <= i < |args| ==> |args[i]| == MAX_BULK
    ensures !Fits(args, |Header(STAR, 9)|) && AllShort(args)
  {
    hide Header, Fits;
    if Fits(args, |Header(STAR, 9)|) {
      FitsIsNear(args, |Header(STAR, 9)|);
    }
  }

  lemma PeekOfHeader(buf: seq<byte>, n: nat)
    requires HoldsAt(buf, 0, Header(STAR, n)) && n <= MAX_ARGS && Bulks(buf, |Header(STAR, n)|, n, [], true).Done?
    ensures Peek(buf).Some?
  {
    hide Decimal.Spell, Decimal.Lenient, Line, Bulks;
    LineOfHeader(buf, 0, STAR, n);
    HeaderIsRead(STAR, n);
    assert buf[0] == Header(STAR, n)[0];
  }

  // ---------------------------------------------------------------------------------------------
  // What a header says
  // ---------------------------------------------------------------------------------------------

  /** An array's header, whatever is written in it: not a number is refused, a negative count is a command of no
      arguments that ends with the header, too large a count is refused, and any other is that many elements. */
  lemma ArrayHeaderSays(buf: seq<byte>, text: seq<byte>)
    requires OneLine(text) && HoldsAt(buf, 0, [STAR] + text + CRLF)
    ensures
      var v := Decimal.Lenient(text);
      if v.None? then Parse(buf) == Wrong(NotANumber)
      else if v.value < 0 then Parse(buf) == Done(|text| + 3, [])
      else if v.value > MAX_ARGS then Parse(buf) == Wrong(TooManyArguments)
      else Parse(buf) == Bulks(buf, |text| + 3, v.value, [], false)
  {
    hide Decimal.Lenient, Line, HoldsAt;
    var header := [STAR] + text;
    LineOfText(buf, 0, header);
    assert header[1..] == text;
    FirstByte(buf, header + CRLF);
  }

  lemma FirstByte(buf: seq<byte>, s: seq<byte>)
    requires s != [] && HoldsAt(buf, 0, s)
    ensures buf != [] && buf[0] == s[0]
  {
  }

  /** An element's header, likewise: only a dollar begins one, and a negative length is too long. */
  lemma ElementHeaderSays(buf: seq<byte>, at: nat, text: seq<byte>)
    requires OneLine(text) && HoldsAt(buf, at, text + CRLF)
    ensures
      if text == [] || text[0] != DOLLAR then ElementAt(buf, at) == Ill(ExpectedBulk)
      else
        var v, next := Decimal.Lenient(text[1..]), at + |text| + 2;
        if v.None? then ElementAt(buf, at) == Ill(NotANumber)
        else if v.value < 0 || v.value > MAX_BULK then ElementAt(buf, at) == Ill(TooLong)
        else ElementAt(buf, at) == if next + v.value + 2 <= |buf| then Here(next, v.value) else NotYet
  {
    hide Decimal.Lenient, Line, HoldsAt;
    LineOfText(buf, at, text);
  }

  /** A null array, as the protocol spells it, is a command of no arguments; a null argument is refused. */
  lemma Nulls(rest: seq<byte>)
    ensures Parse([STAR, 45, 49, 13, 10] + rest) == Done(5, [])
    ensures Parse([STAR, 49, 13, 10, DOLLAR, 45, 49, 13, 10] + rest) == Wrong(TooLong)
  {
    hide Line, HoldsAt, ElementAt;
    var minus: seq<byte> := [45, 49];
    MinusOne();
    var none := [STAR] + minus + CRLF;
    StartsWith(none, rest);
    assert none == [STAR, 45, 49, 13, 10];
    ArrayHeaderSays(none + rest, minus);
    var header, bulk := [STAR] + [49] + CRLF, [DOLLAR] + minus + CRLF;
    StartsWith(header + bulk, rest);
    HoldsParts(header + bulk + rest, 0, header, bulk);
    assert header + bulk == [STAR, 49, 13, 10, DOLLAR, 45, 49, 13, 10];
    ArrayHeaderSays(header + bulk + rest, [49]);
    assert ([DOLLAR] + minus)[1..] == minus;
    ElementHeaderSays(header + bulk + rest, 4, [DOLLAR] + minus);
    BulksStep(header + bulk + rest, 4, 1, [], false);
  }

  lemma MinusOne()
    ensures Decimal.Lenient([45, 49]) == Some(-1) && Decimal.Lenient([49]) == Some(1)
  {
    Decimal.LenientOfSpell(-1);
    Decimal.LenientOfSpell(1);
    assert Decimal.Spell(-1) == [45, 49] && Decimal.Spell(1) == [49];
  }
}
