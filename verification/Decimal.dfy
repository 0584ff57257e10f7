/** Decimal integers as bytes: the strict spelling a counter is stored under, the lenient one the wire
    accepts, and the one both are printed in. */
module Decimal {
  import opened Bytes

  const MIN := -0x8000_0000_0000_0000
  const MAX := 0x7FFF_FFFF_FFFF_FFFF

  type i64 = x: int | MIN <= x <= MAX

  const MINUS: byte := 45
  const PLUS: byte := 43
  const ZERO: byte := 48

  predicate IsDigit(b: byte) { ZERO <= b < ZERO + 10 }

  predicate AllDigits(s: seq<byte>)
  {
    forall i :: 0 <= i < |s| ==> IsDigit(s[i])
  }

  /** What a run of digits is worth. */
  function Value(s: seq<byte>): (v: nat)
    requires AllDigits(s)
  {
    if s == [] then 0 else 10 * Value(s[..|s| - 1]) + (s[|s| - 1] - ZERO)
  }

  /** A number's digits, most significant first, with no leading nought but a lone one. */
  function Digits(n: nat): (s: seq<byte>)
    ensures s != [] && AllDigits(s)
  {
    if n < 10 then [ZERO + n] else Digits(n / 10) + [ZERO + n % 10]
  }

  function Magnitude(v: int): nat { if v < 0 then -v else v }

  function Negated(n: nat): int { -(n as int) }

  /** How an integer is printed. */
  function Spell(v: int): (s: seq<byte>)
  {
    if v < 0 then [MINUS] + Digits(Magnitude(v)) else Digits(Magnitude(v))
  }

  lemma {:induction false} ValueOfDigits(n: nat)
    ensures Value(Digits(n)) == n
    ensures Digits(n)[0] == ZERO <==> n == 0
    ensures n == 0 ==> |Digits(n)| == 1
  {
    if n >= 10 {
      ValueOfDigits(n / 10);
      assert Digits(n)[..|Digits(n)| - 1] == Digits(n / 10);
    } else {
      assert Digits(n)[..0] == [];
    }
  }

  /** Digits with no leading nought are the digits of their value. */
  lemma {:induction false} DigitsOfValue(s: seq<byte>)
    requires s != [] && AllDigits(s) && (s[0] != ZERO || |s| == 1)
    ensures Digits(Value(s)) == s
    ensures s[0] != ZERO ==> Value(s) > 0
  {
    var n := |s| - 1;
    if n > 0 {
      DigitsOfValue(s[..n]);
      assert s == s[..n] + [s[n]];
      assert Value(s) / 10 == Value(s[..n]) && Value(s) % 10 == s[n] - ZERO;
    } else {
      assert s[..0] == [];
    }
  }

  function Pow10(k: nat): (p: nat)
    ensures p >= 1
  {
    if k == 0 then 1 else 10 * Pow10(k - 1)
  }

  lemma {:induction false} DigitsLength(n: nat, k: nat)
    requires k > 0 && n < Pow10(k)
    ensures |Digits(n)| <= k
  {
    if n >= 10 {
      assert k > 1;
      DigitsLength(n / 10, k - 1);
    }
  }

  lemma Pow10Of19()
    ensures Pow10(19) > 0x8000_0000_0000_0000
  {
    assert Pow10(1) == 10 && Pow10(2) == 100 && Pow10(3) == 1000 && Pow10(4) == 10000;
    assert Pow10(5) == 100000 && Pow10(6) == 1000000 && Pow10(7) == 10000000 && Pow10(8) == 100000000;
    assert Pow10(9) == 1000000000 && Pow10(10) == 10000000000 && Pow10(11) == 100000000000;
    assert Pow10(12) == 1000000000000 && Pow10(13) == 10000000000000 && Pow10(14) == 100000000000000;
    assert Pow10(15) == 1000000000000000 && Pow10(16) == 10000000000000000;
    assert Pow10(17) == 100000000000000000 && Pow10(18) == 1000000000000000000;
  }

  /** Every signed 64-bit integer is printed in at most twenty bytes. */
  lemma SpellLength(v: i64)
    ensures 1 <= |Spell(v)| <= 20
    ensures v >= 0 ==> |Spell(v)| <= 19
  {
    Pow10Of19();
    DigitsLength(Magnitude(v), 19);
  }

  // ---------------------------------------------------------------------------------------------
  // The strict reading
  // ---------------------------------------------------------------------------------------------

  /** The integer a text spells, read exactly as strictly as a counter is: no plus, no leading nought, no
      signed nought, nothing after the digits, and within range. */
  function Strict(text: seq<byte>): (v: Option<int>)
    ensures v.Some? ==> MIN <= v.value <= MAX
  {
    if text == [] || |text| > 20 then None
    else
      var negative := text[0] == MINUS;
      var digits := if negative then text[1..] else text;
      if digits == [] || (digits[0] == ZERO && (negative || |digits| > 1)) || !AllDigits(digits) then None
      else if negative then (if Value(digits) <= -MIN then Some(Negated(Value(digits))) else None)
      else (if Value(digits) <= MAX then Some(Value(digits)) else None)
  }

  /** Printing then reading gives every integer back. */
  lemma StrictOfSpell(v: i64)
    ensures Strict(Spell(v)) == Some(v)
  {
    SpellLength(v);
    var n := Magnitude(v);
    ValueOfDigits(n);
    if v < 0 {
      assert Spell(v)[1..] == Digits(n);
    }
  }

  /** Only one text is read as an integer: the one it is printed as. */
  lemma SpellOfStrict(text: seq<byte>)
    requires Strict(text).Some?
    ensures Spell(Strict(text).value) == text
  {
    hide Digits, Value;
    var negative := text[0] == MINUS;
    var digits := if negative then text[1..] else text;
    DigitsOfValue(digits);
    if negative {
      assert text == [MINUS] + digits;
    }
  }

  // ---------------------------------------------------------------------------------------------
  // The loops
  // ---------------------------------------------------------------------------------------------

  lemma {:induction false} ValueOfPrefix(s: seq<byte>, n: nat)
    requires AllDigits(s) && n <= |s|
    ensures Value(s[..n]) <= Value(s)
    decreases |s|
  {
    if n < |s| {
      ValueOfPrefix(s[..|s| - 1], n);
      assert s[..|s| - 1][..n] == s[..n];
    } else {
      assert s[..n] == s;
    }
  }

  lemma ValueNext(s: seq<byte>, n: nat)
    requires n < |s| && AllDigits(s[..n]) && IsDigit(s[n])
    ensures AllDigits(s[..n + 1]) && Value(s[..n + 1]) == 10 * Value(s[..n]) + (s[n] - ZERO)
  {
    assert s[..n + 1][..n] == s[..n];
  }

  lemma NotAllDigits(s: seq<byte>, n: nat)
    requires n < |s| && !IsDigit(s[n])
    ensures !AllDigits(s)
  {
  }

  /** Read a decimal integer, accumulating it negated so that the most negative one parses like any other. */
  method ReadStrict(text: seq<byte>) returns (v: Option<int>)
    ensures v == Strict(text)
  {
    if |text| == 0 || |text| > 20 {
      return None;
    }
    var negative := text[0] == MINUS;
    var digits := if negative then text[1..] else text;
    if |digits| == 0 || (digits[0] == ZERO && (negative || |digits| > 1)) {
      return None;
    }
    var value := 0;
    for n := 0 to |digits|
      invariant AllDigits(digits[..n]) && value == Negated(Value(digits[..n])) && MIN <= value
    {
      if !IsDigit(digits[n]) {
        NotAllDigits(digits, n);
        return None;
      }
      ValueNext(digits, n);
      if value * 10 < MIN || value * 10 - (digits[n] - ZERO) < MIN {
        if AllDigits(digits) {
          ValueOfPrefix(digits, n + 1);
        }
        return None;
      }
      value := value * 10 - (digits[n] - ZERO);
    }
    assert digits[..|digits|] == digits;
    if negative {
      return Some(value);
    }
    if value == MIN {
      return None;
    }
    return Some(-value);
  }

  lemma DigitsStep(n: nat)
    ensures Digits(n) == if n < 10 then [ZERO + n] else Digits(n / 10) + [ZERO + n % 10]
  {
  }

  /** A byte written just before a tail heads it. */
  lemma Prepended(s: seq<byte>, at: nat, b: byte)
    requires at < |s|
    ensures s[at := b][at..] == [b] + s[at + 1..]
  {
  }

  lemma MoveOver(head: seq<byte>, b: byte, tail: seq<byte>)
    ensures head + [b] + tail == head + ([b] + tail)
  {
  }

  lemma DigitsFit(value: i64)
    ensures |Digits(Magnitude(value))| <= 19
  {
    Pow10Of19();
    DigitsLength(Magnitude(value), 19);
  }

  /** Print an integer from the back of a twenty-byte buffer. */
  method Print(value: i64) returns (text: seq<byte>)
    ensures text == Spell(value)
  {
    hide Digits;
    var buf := new byte[20](_ => 0);
    var at := 20;
    var left := Magnitude(value);
    DigitsFit(value);
    ghost var digits, tail := Digits(left), buf[..][at..];
    assert tail == [] && digits + [] == digits;
    while left >= 10
      invariant 0 <= at <= 20 && |tail| == 20 - at && tail == buf[..][at..]
      invariant digits == Digits(left) + tail
      decreases left
    {
      DigitsStep(left);
      SomeDigits(left / 10);
      at := WriteBefore(buf, at, ZERO + left % 10, tail);
      MoveOver(Digits(left / 10), ZERO + left % 10, tail);
      tail := [ZERO + left % 10] + tail;
      left := left / 10;
    }
    DigitsStep(left);
    at := WriteBefore(buf, at, ZERO + left, tail);
    tail := [ZERO + left] + tail;
    if value < 0 {
      at := WriteBefore(buf, at, MINUS, tail);
    }
    text := buf[..][at..];
  }

  lemma SomeDigits(n: nat)
    ensures |Digits(n)| >= 1
  {
  }

  /** One more byte in front of what is already at the back of the buffer. */
  method WriteBefore(buf: array<byte>, at: nat, b: byte, ghost tail: seq<byte>) returns (now: nat)
    requires 0 < at <= buf.Length && tail == buf[..][at..]
    modifies buf
    ensures now == at - 1 && buf[..][now..] == [b] + tail
  {
    now := at - 1;
    ghost var was := buf[..];
    buf[now] := b;
    assert buf[..] == was[now := b];
    Prepended(was, now, b);
  }

  // ---------------------------------------------------------------------------------------------
  // The lenient reading
  // ---------------------------------------------------------------------------------------------

  /** The integer a length or count on the wire spells: either sign, leading noughts allowed, and the
      magnitude within what a signed 64-bit integer holds positively. */
  function Lenient(text: seq<byte>): (v: Option<int>)
    ensures v.Some? ==> -MAX <= v.value <= MAX
  {
    var negative := text != [] && text[0] == MINUS;
    var digits := if text != [] && (text[0] == MINUS || text[0] == PLUS) then text[1..] else text;
    if digits == [] || !AllDigits(digits) || Value(digits) > MAX then None
    else Some(if negative then Negated(Value(digits)) else Value(digits))
  }

  method ReadLenient(text: seq<byte>) returns (v: Option<int>)
    ensures v == Lenient(text)
  {
    var negative := |text| > 0 && text[0] == MINUS;
    var digits := if |text| > 0 && (text[0] == MINUS || text[0] == PLUS) then text[1..] else text;
    if |digits| == 0 {
      return None;
    }
    var value := 0;
    for n := 0 to |digits|
      invariant AllDigits(digits[..n]) && value == Value(digits[..n]) <= MAX
    {
      if !IsDigit(digits[n]) {
        NotAllDigits(digits, n);
        return None;
      }
      ValueNext(digits, n);
      if value * 10 > MAX || value * 10 + (digits[n] - ZERO) > MAX {
        if AllDigits(digits) {
          ValueOfPrefix(digits, n + 1);
        }
        return None;
      }
      value := value * 10 + (digits[n] - ZERO);
    }
    assert digits[..|digits|] == digits;
    return Some(if negative then -value else value);
  }

  /** What is printed is read back from the wire, except the most negative integer, which is refused. */
  lemma LenientOfSpell(v: i64)
    ensures Lenient(Spell(v)) == Some(v) <==> v != MIN
    ensures v == MIN ==> Lenient(Spell(v)).None?
  {
    var n := Magnitude(v);
    ValueOfDigits(n);
    if v < 0 {
      assert Spell(v)[1..] == Digits(n);
    }
  }

  /** Just what the wire reads as an integer: some digits worth no more than the greatest, with leading noughts or
      not, after a plus, a minus or nothing. */
  lemma LenientIs(text: seq<byte>, v: int)
    ensures Lenient(text) == Some(v) <==>
      || (Readable(text) && v == Value(text))
      || (text != [] && text[0] == PLUS && Readable(text[1..]) && v == Value(text[1..]))
      || (text != [] && text[0] == MINUS && Readable(text[1..]) && v == 0 - Value(text[1..]))
  {
    hide Value;
    if text != [] {
      assert AllDigits(text) ==> IsDigit(text[0]);
    }
  }

  predicate Readable(digits: seq<byte>)
  {
    digits != [] && AllDigits(digits) && Value(digits) <= MAX
  }

  /** Leading noughts are worth nothing, and a digit before others is worth its place. */
  lemma {:induction false} ValueOfFront(b: byte, s: seq<byte>)
    requires IsDigit(b) && AllDigits(s)
    ensures AllDigits([b] + s) && Value([b] + s) == (b - ZERO) * Pow10(|s|) + Value(s)
    decreases |s|
  {
    if s == [] {
      assert ([b] + s)[..0] == [] && ([b] + s)[0] == b;
    } else {
      var n := |s| - 1;
      ValueOfFront(b, s[..n]);
      assert ([b] + s)[..|s|] == [b] + s[..n];
      assert Value([b] + s) == 10 * Value([b] + s[..n]) + (s[n] - ZERO);
      Tenfold(b - ZERO, Pow10(n));
    }
  }

  lemma Tenfold(a: nat, p: nat)
    ensures 10 * (a * p) == a * (10 * p)
  {
  }
}
