/** What a line typed at a socket parses as, said of its bytes. */
module InlineForm {
  import opened Bytes
  import opened Resp

  // ---------------------------------------------------------------------------------------------
  // A line has one set of words
  // ---------------------------------------------------------------------------------------------

  /** White is a space, a tab, a line feed, a form feed or a carriage return. */
  lemma WhiteBytes(b: byte)
    ensures IsWhite(b) <==> b in {0x20, 0x09, 0x0A, 0x0C, 0x0D}
  {
  }

  /** Whatever spans are the words of a line are the ones found. */
  lemma {:induction false} OneSetOfWords(line: seq<byte>, at: nat, spans: seq<Span>)
    requires at <= |line| && AreWords(line, at, spans)
    ensures spans == Words(line, at)
    decreases |line| - at
  {
    hide IsWhite, AreWords;
    if at == |line| {
      NoneAtTheEnd(line, spans);
    } else if IsWhite(line[at]) {
      SkipWhite(line, at, spans);
      OneSetOfWords(line, at + 1, spans);
    } else {
      FirstWord(line, at, spans);
      var end := WordEnd(line, at);
      OneSetOfWords(line, end, spans[1..]);
      assert spans == [spans[0]] + spans[1..];
    }
  }

  lemma NoneAtTheEnd(line: seq<byte>, spans: seq<Span>)
    requires AreWords(line, |line|, spans)
    ensures spans == []
  {
    hide Within;
    if spans != [] {
      NoRoom(spans[0], |line|);
    }
  }

  lemma NoRoom(span: Span, at: nat)
    ensures !Within(span, at, at)
  {
  }

  lemma SkipWhite(line: seq<byte>, at: nat, spans: seq<Span>)
    requires at < |line| && AreWords(line, at, spans) && IsWhite(line[at])
    ensures AreWords(line, at + 1, spans)
  {
    hide IsWhite;
    assert !Covered(spans, at);
  }

  lemma {:induction false} InOrder(spans: seq<Span>, j: nat, k: nat)
    requires j < k < |spans|
    requires forall i :: 0 <= i < |spans| ==> 0 < spans[i].len
    requires forall i :: 0 <= i < |spans| - 1 ==> spans[i].at + spans[i].len < spans[i + 1].at
    ensures spans[j].at + spans[j].len < spans[k].at
    decreases k
  {
    if j < k - 1 {
      InOrder(spans, j, k - 1);
      assert spans[k - 1].at + spans[k - 1].len < spans[k - 1 + 1].at;
    } else {
      assert spans[j].at + spans[j].len < spans[j + 1].at;
    }
  }

  lemma FirstWord(line: seq<byte>, at: nat, spans: seq<Span>)
    requires at < |line| && AreWords(line, at, spans) && !IsWhite(line[at])
    ensures spans != [] && spans[0] == Span(at, WordEnd(line, at) - at) && at < WordEnd(line, at)
    ensures AreWords(line, WordEnd(line, at), spans[1..])
  {
    hide IsWhite;
    assert Covered(spans, at);
    var k :| 0 <= k < |spans| && spans[k].at <= at < spans[k].at + spans[k].len;
    if k > 0 {
      InOrder(spans, 0, k);
    }
    var end := at + spans[0].len;
    forall i | at <= i < end
      ensures !IsWhite(line[i])
    {
      assert Covered(spans, i);
    }
    if end < |line| {
      NotCovered(spans, end);
    }
    EndsThere(line, at, end);
    RestAreWords(line, at, end, spans);
  }

  /** The byte just past the first span is in no span. */
  lemma NotCovered(spans: seq<Span>, end: nat)
    requires spans != [] && end == spans[0].at + spans[0].len
    requires forall i :: 0 <= i < |spans| ==> 0 < spans[i].len
    requires forall i :: 0 <= i < |spans| - 1 ==> spans[i].at + spans[i].len < spans[i + 1].at
    ensures !Covered(spans, end)
  {
    forall k | 0 <= k < |spans|
      ensures !(spans[k].at <= end < spans[k].at + spans[k].len)
    {
      if k > 0 {
        InOrder(spans, 0, k);
      }
    }
  }

  lemma EndsThere(line: seq<byte>, at: nat, end: nat)
    requires at <= end <= |line| && (end < |line| ==> IsWhite(line[end]))
    requires forall i :: at <= i < end ==> !IsWhite(line[i])
    ensures WordEnd(line, at) == end
  {
    hide IsWhite;
  }

  lemma RestAreWords(line: seq<byte>, at: nat, end: nat, spans: seq<Span>)
    requires at < end <= |line| && AreWords(line, at, spans) && spans != [] && spans[0] == Span(at, end - at)
    ensures AreWords(line, end, spans[1..])
  {
    hide IsWhite;
    var rest := spans[1..];
    forall k | 0 <= k < |rest|
      ensures end <= rest[k].at && rest[k] == spans[k + 1]
    {
      InOrder(spans, 0, k + 1);
    }
    forall i | end <= i < |line|
      ensures Covered(rest, i) <==> Covered(spans, i)
    {
      CoveredByMore(spans[0], rest, i);
      assert [spans[0]] + rest == spans;
    }
  }

  // ---------------------------------------------------------------------------------------------
  // What an inline command is
  // ---------------------------------------------------------------------------------------------

  /** The line of `buf` that ends with the newline at `end`, less a carriage return before it. */
  function LineTo(buf: seq<byte>, end: nat): seq<byte>
    requires end < |buf|
  {
    if end > 0 && buf[end - 1] == 0x0D then buf[..end - 1] else buf[..end]
  }

  /** Every argument but those past the limit starts where a span can say and is no longer than one can. */
  ghost predicate Sayable(spans: seq<Span>)
  {
    forall k :: 0 <= k < |spans| && k < MAX_ARGS ==> spans[k].at < NARROW && spans[k].len < NARROW
  }

  /** A line that does not begin an array is a command of its words, all of them and in order, taking up the bytes to
      its newline; it is refused if a word lies too far in or is too long to be said, and otherwise if it has too
      many. */
  lemma InlineIsItsWords(buf: seq<byte>, end: nat, spans: seq<Span>)
    requires end < |buf| && buf[0] != STAR && buf[end] == 0x0A && forall i :: 0 <= i < end ==> buf[i] != 0x0A
    requires AreWords(LineTo(buf, end), 0, spans)
    ensures Parse(buf) ==
      if !Sayable(spans) then Wrong(TooLong)
      else if |spans| > MAX_ARGS then Wrong(TooManyArguments)
      else Done(end + 1, spans)
  {
    hide AreWords, Words, Record, IsWhite;
    FirstNewline(buf, 0, end);
    var line := LineTo(buf, end);
    assert buf[0..end] == buf[..end];
    assert end > 0 ==> buf[0..end - 1] == buf[..end - 1];
    OneSetOfWords(line, 0, spans);
    RecordsAll([], spans);
    assert [] + spans == spans;
  }

  /** There are such spans for every line. */
  lemma EveryLineHasWords(line: seq<byte>)
    ensures AreWords(line, 0, Words(line, 0))
  {
    WordsAreWords(line, 0);
  }

  /** Recording stops at the first argument that cannot be. */
  lemma {:induction false} RecordsAll(args: seq<Span>, spans: seq<Span>)
    requires |args| <= MAX_ARGS
    ensures Record(args, spans) ==
      if exists k ::
           0 <= k < |spans| && |args| + k < MAX_ARGS && !(spans[k].at < NARROW && spans[k].len < NARROW)
      then Err(TooLong)
      else if |args| + |spans| > MAX_ARGS then Err(TooManyArguments)
      else Ok(args + spans)
    decreases |spans|
  {
    if spans != [] {
      var rest := spans[1..];
      if |args| < MAX_ARGS && spans[0].at < NARROW && spans[0].len < NARROW {
        RecordsAll(args + [spans[0]], rest);
        assert args + [spans[0]] + rest == args + spans;
        forall k | 0 <= k < |rest|
          ensures rest[k] == spans[k + 1]
        {
        }
        if k :| 0 <= k < |spans| && |args| + k < MAX_ARGS && !(spans[k].at < NARROW && spans[k].len < NARROW) {
          assert rest[k - 1] == spans[k];
        }
      }
    } else {
      assert args + spans == args;
    }
  }

  // ---------------------------------------------------------------------------------------------
  // Words typed and read back
  // ---------------------------------------------------------------------------------------------

  /** A word that can be typed: some bytes, none of them white. */
  predicate Plain(word: seq<byte>)
  {
    word != [] && forall i :: 0 <= i < |word| ==> !IsWhite(word[i])
  }

  /** Words with a space between each and the next. */
  function Typed(words: seq<seq<byte>>): (s: seq<byte>)
  {
    if words == [] then [] else if |words| == 1 then words[0] else words[0] + [SPACE] + Typed(words[1..])
  }

  /** Where each of some words typed from `at` on lies. */
  function Lie(words: seq<seq<byte>>, at: nat): (spans: seq<Span>)
    ensures |spans| == |words|
  {
    if words == [] then [] else [Span(at, |words[0]|)] + Lie(words[1..], at + |words[0]| + 1)
  }

  lemma {:induction false} TypedAreWords(line: seq<byte>, at: nat, words: seq<seq<byte>>)
    requires at <= |line| && line[at..] == Typed(words) && forall i :: 0 <= i < |words| ==> Plain(words[i])
    ensures AreWords(line, at, Lie(words, at))
    decreases |words|
  {
    hide IsWhite, AreWords, Typed, Lie;
    if words == [] {
      NothingTyped(at);
      NoWords(line);
    } else {
      var word, rest := words[0], words[1..];
      var end := at + |word|;
      WordThenRest(line, at, words);
      LieMore(words, at);
      assert forall i :: at <= i < end ==> line[i] == line[at..end][i - at];
      if rest == [] {
        NothingTyped(end + 1);
        NoWords(line);
      } else {
        SpaceIsWhite();
        TypedAreWords(line, end + 1, rest);
        OneWhiteMore(line, end, Lie(rest, end + 1));
      }
      OneWordMore(line, at, end, Lie(rest, end + 1));
    }
  }

  lemma NothingTyped(at: nat)
    ensures Typed([]) == [] && Lie([], at) == []
  {
  }

  lemma {:induction false} TypedTexts(line: seq<byte>, at: nat, words: seq<seq<byte>>, i: nat)
    requires at <= |line| && line[at..] == Typed(words) && i < |words|
    ensures |Lie(words, at)| == |words|
    ensures var span := Lie(words, at)[i]; span.at + span.len <= |line| && line[span.at..span.at + span.len] == words[i]
    decreases |words|
  {
    hide Typed, Lie;
    WordThenRest(line, at, words);
    LieMore(words, at);
    LieSize(words, at);
    if i > 0 {
      TypedTexts(line, at + |words[0]| + 1, words[1..], i - 1);
    }
  }

  lemma SpaceIsWhite()
    ensures IsWhite(SPACE)
  {
  }

  lemma LieMore(words: seq<seq<byte>>, at: nat)
    requires words != []
    ensures Lie(words, at) == [Span(at, |words[0]|)] + Lie(words[1..], at + |words[0]| + 1)
  {
  }

  lemma WordThenRest(line: seq<byte>, at: nat, words: seq<seq<byte>>)
    requires at <= |line| && words != [] && line[at..] == Typed(words)
    ensures var end := at + |words[0]|;
            && end <= |line| && line[at..end] == words[0]
            && (|words| == 1 ==> end == |line|)
            && (|words| > 1 ==> end < |line| && line[end] == SPACE && line[end + 1..] == Typed(words[1..]))
  {
    var word, tail := words[0], line[at..];
    var end := at + |word|;
    assert tail[..|word|] == word;
    assert line[at..end] == tail[..|word|];
    if |words| > 1 {
      assert tail[|word|] == SPACE && line[end] == tail[|word|];
      assert tail[|word| + 1..] == Typed(words[1..]);
      assert line[end + 1..] == tail[|word| + 1..];
    }
  }

  /** Words typed on a line, with or without a carriage return before the newline, come back as they were typed. */
  lemma TypedRoundTrip(words: seq<seq<byte>>, returned: bool, rest: seq<byte>)
    requires forall i :: 0 <= i < |words| ==> Plain(words[i])
    requires words != [] ==> words[0] != [] && words[0][0] != STAR
    requires |words| <= MAX_ARGS && |Typed(words)| < NARROW
    ensures
      var line := Typed(words);
      var buf := line + (if returned then [0x0D, 0x0A] else [0x0A]) + rest;
      && Parse(buf) == Done(|line| + (if returned then 2 else 1), Lie(words, 0))
      && (forall i :: 0 <= i < |words| ==> Lie(words, 0)[i].at + Lie(words, 0)[i].len <= |buf|)
      && Texts(buf, Lie(words, 0)) == words
  {
    hide IsWhite, AreWords, Parse, Lie, Texts, Typed;
    var line := Typed(words);
    var buf := line + (if returned then [0x0D, 0x0A] else [0x0A]) + rest;
    var end := |line| + if returned then 1 else 0;
    assert line[0..] == line;
    TypedAreWords(line, 0, words);
    assert buf[..|line|] == line;
    TypedHasNoNewline(words);
    StartsPlain(words, buf, end);
    EndsPlain(words);
    assert LineTo(buf, end) == line;
    LieInside(line, words);
    InlineIsItsWords(buf, end, Lie(words, 0));
    var spans := Lie(words, 0);
    forall i | 0 <= i < |words|
      ensures |spans| == |words| && spans[i].at + spans[i].len <= |buf|
      ensures buf[spans[i].at..spans[i].at + spans[i].len] == words[i]
    {
      TypedTexts(line, 0, words, i);
      assert buf[spans[i].at..spans[i].at + spans[i].len] == line[spans[i].at..spans[i].at + spans[i].len];
    }
    LieSize(words, 0);
    TextsAre(buf, spans, words);
  }

  lemma LieSize(words: seq<seq<byte>>, at: nat)
    ensures |Lie(words, at)| == |words|
  {
  }

  lemma LieInside(line: seq<byte>, words: seq<seq<byte>>)
    requires AreWords(line, 0, Lie(words, 0)) && |line| < NARROW && |words| <= MAX_ARGS
    ensures Sayable(Lie(words, 0)) && |Lie(words, 0)| <= MAX_ARGS
  {
  }

  lemma {:induction false} TypedHasNoNewline(words: seq<seq<byte>>)
    requires forall i :: 0 <= i < |words| ==> Plain(words[i])
    ensures forall i :: 0 <= i < |Typed(words)| ==> Typed(words)[i] != NEWLINE
    decreases |words|
  {
    if words != [] {
      PlainHasNoNewline(words[0]);
      TypedHasNoNewline(words[1..]);
    }
  }

  lemma PlainHasNoNewline(word: seq<byte>)
    requires Plain(word)
    ensures forall i :: 0 <= i < |word| ==> word[i] != NEWLINE && word[i] != RETURN
  {
    assert IsWhite(NEWLINE) && IsWhite(RETURN);
  }

  /** A typed line does not end in a carriage return. */
  lemma {:induction false} EndsPlain(words: seq<seq<byte>>)
    requires forall i :: 0 <= i < |words| ==> Plain(words[i])
    ensures Typed(words) != [] ==> Typed(words)[|Typed(words)| - 1] != RETURN
    decreases |words|
  {
    if words != [] {
      PlainHasNoNewline(words[0]);
      if |words| > 1 {
        EndsPlain(words[1..]);
        TypedIsSome(words[1..]);
      }
    }
  }

  lemma TypedIsSome(words: seq<seq<byte>>)
    requires words != [] && Plain(words[0])
    ensures Typed(words) != [] && Typed(words)[0] == words[0][0]
  {
  }

  lemma StartsPlain(words: seq<seq<byte>>, buf: seq<byte>, end: nat)
    requires forall i :: 0 <= i < |words| ==> Plain(words[i])
    requires words != [] ==> words[0] != [] && words[0][0] != STAR
    requires end < |buf| && |Typed(words)| <= |buf| && buf[..|Typed(words)|] == Typed(words)
    requires Typed(words) == [] ==> buf[0] == NEWLINE || buf[0] == RETURN
    ensures buf[0] != STAR
  {
    if words != [] {
      TypedIsSome(words);
      assert buf[0] == Typed(words)[0];
    }
  }
}
