/** How one cached entry is laid out in arena bytes:
    flags byte, key length unless the flags byte carries it, value length, key, value, expiry?, user flags?.
    Tests and masks of the flags byte are written as remainders and quotients of its value. */
module Entry {
  import opened Bytes

  /** The longest key the flags byte can carry. */
  const KLEN_INLINE := 62
  /** The longest header: one flags byte and two five-byte varints. */
  const MAX_HEADER := 11
  /** Lengths at or past 2^35 take a sixth varint byte, which the size rule does not count. */
  const LENGTH_LIMIT := 0x8_0000_0000

  /** An entry's parts, as they are handed in and as they are read back. */
  datatype Parts = Parts(key: seq<byte>, value: seq<byte>, expiry: Option<u32>, flags: Option<u32>)

  /** A decoded header: where the key starts and how long the rest is. */
  datatype Head = Head(flags: byte, header: nat, klen: nat, vlen: nat)
  {
    predicate Timed() { flags % 2 == 1 }

    predicate Flagged() { flags / 2 % 2 == 1 }

    function Trailer(): nat
    {
      (if Timed() then 4 else 0) + (if Flagged() then 4 else 0)
    }

    function Size(): nat
    {
      header + klen + vlen + Trailer()
    }

    function Key(bytes: seq<byte>): seq<byte>
      requires Size() <= |bytes|
    {
      bytes[header..header + klen]
    }

    function Value(bytes: seq<byte>): seq<byte>
      requires Size() <= |bytes|
    {
      bytes[header + klen..header + klen + vlen]
    }

    function Expiry(bytes: seq<byte>): Option<u32>
      requires Size() <= |bytes|
    {
      if Timed() then Some(Word(bytes, header + klen + vlen)) else None
    }

    function UserFlags(bytes: seq<byte>): Option<u32>
      requires Size() <= |bytes|
    {
      if Flagged() then Some(Word(bytes, header + klen + vlen + (if Timed() then 4 else 0))) else None
    }

    function View(bytes: seq<byte>): Parts
      requires Size() <= |bytes|
    {
      Parts(Key(bytes), Value(bytes), Expiry(bytes), UserFlags(bytes))
    }
  }

  // ---------------------------------------------------------------------------------------------
  // Varints
  // ---------------------------------------------------------------------------------------------

  /** Unsigned LEB128: seven bits a byte, least significant first, the top bit set on all but the last. */
  function Leb(v: nat): (s: seq<byte>)
    ensures |s| > 0
  {
    if v < 0x80 then [v] else [v % 0x80 + 0x80] + Leb(v / 0x80)
  }

  /** The number whose base-128 digits, least first, are the low seven bits of some bytes. */
  function SevenBits(s: seq<byte>): nat
  {
    if s == [] then 0 else s[0] % 0x80 + 0x80 * SevenBits(s[1..])
  }

  /** A varint is its value's digits, seven bits at a time and least first, every byte but the last marked as having
      another after it, and no longer than it need be. */
  lemma {:induction false} LebIs(v: nat)
    ensures var s := Leb(v);
            && SevenBits(s) == v && (|s| > 1 ==> s[|s| - 1] > 0)
            && forall i :: 0 <= i < |s| ==> (s[i] >= 0x80 <==> i < |s| - 1)
  {
    if v >= 0x80 {
      LebIs(v / 0x80);
      assert Leb(v)[1..] == Leb(v / 0x80);
    } else {
      assert Leb(v)[1..] == [];
    }
  }

  /** How many bytes a length is taken to need: never more than five. */
  function VarintLen(v: nat): (n: nat)
    ensures 1 <= n <= 5
  {
    if v <= 0x7f then 1 else if v <= 0x3fff then 2 else if v <= 0x1f_ffff then 3 else if v <= 0xfff_ffff then 4 else 5
  }

  /** The size rule counts the bytes a varint takes exactly for lengths under 2^35, and for no others. */
  lemma VarintLenExact(v: nat)
    ensures VarintLen(v) == |Leb(v)| <==> v < LENGTH_LIMIT
  {
    var a := v / 0x80;
    var b := a / 0x80;
    var c := b / 0x80;
    var d := c / 0x80;
    assert v >= 0x80 ==> |Leb(v)| == 1 + |Leb(a)|;
    assert a >= 0x80 ==> |Leb(a)| == 1 + |Leb(b)|;
    assert b >= 0x80 ==> |Leb(b)| == 1 + |Leb(c)|;
    assert c >= 0x80 ==> |Leb(c)| == 1 + |Leb(d)|;
    assert d >= 0x80 ==> |Leb(d)| == 1 + |Leb(d / 0x80)|;
  }

  /** The value at the front of `s` and how many bytes it took; nothing when `s` ends first, which is
      where the source's indexing would stop the program. */
  function ReadLeb(s: seq<byte>): (r: Option<(nat, nat)>)
    ensures r.Some? ==> 1 <= r.value.1 <= |s|
  {
    if s == [] then None
    else if s[0] < 0x80 then Some((s[0] as nat, 1))
    else
      match ReadLeb(s[1..])
      case None => None
      case Some((high, n)) => Some((s[0] % 0x80 + 0x80 * high, n + 1))
  }

  /** What was written reads back, whatever follows it. */
  lemma {:induction false} LebRoundTrip(v: nat, rest: seq<byte>)
    ensures ReadLeb(Leb(v) + rest) == Some((v, |Leb(v)|))
  {
    var s := Leb(v) + rest;
    if v >= 0x80 {
      assert s[1..] == Leb(v / 0x80) + rest;
      LebRoundTrip(v / 0x80, rest);
    }
  }

  /** Write `value` as LEB128 over `into` from `from`, a byte at a time. */
  method PutVarint(into: seq<byte>, from: nat, value: nat) returns (out: seq<byte>, n: nat)
    requires from + |Leb(value)| <= |into|
    ensures n == |Leb(value)| && out == Splice(into, from, Leb(value))
  {
    var left := value;
    out, n := into, 0;
    while left >= 0x80
      invariant from + n + |Leb(left)| <= |into| == |out|
      invariant n + |Leb(left)| == |Leb(value)|
      invariant out == Splice(into, from, Leb(value)[..n])
      invariant Leb(value)[n..] == Leb(left)
      decreases left
    {
      assert Leb(left) == [left % 0x80 + 0x80] + Leb(left / 0x80);
      assert Leb(value)[n] == left % 0x80 + 0x80 by { assert Leb(value)[n..][0] == Leb(value)[n]; }
      assert Leb(value)[..n + 1] == Leb(value)[..n] + [left % 0x80 + 0x80];
      assert Leb(value)[n + 1..] == Leb(value)[n..][1..];
      out := out[from + n := left % 0x80 + 0x80];
      left := left / 0x80;
      n := n + 1;
    }
    assert Leb(value)[n..][0] == Leb(value)[n];
    assert Leb(value) == Leb(value)[..n] + [left];
    out := out[from + n := left];
    n := n + 1;
  }

  /** Read a LEB128 value from the front of `from`. */
  method GetVarint(from: seq<byte>) returns (value: nat, n: nat)
    requires ReadLeb(from).Some?
    ensures ReadLeb(from) == Some((value, n))
  {
    value, n := 0, 0;
    var scale: nat := 1;
    while true
      invariant n <= |from| && ReadLeb(from[n..]).Some?
      invariant var rest := ReadLeb(from[n..]).value;
                ReadLeb(from) == Some((value + scale * rest.0, n + rest.1))
      decreases |from| - n
    {
      var b := from[n];
      ghost var rest := ReadLeb(from[n..]).value;
      assert from[n..][1..] == from[n + 1..];
      if b < 0x80 {
        value, n := value + scale * b, n + 1;
        return;
      }
      ghost var high := ReadLeb(from[n + 1..]).value.0;
      assert rest.0 == b % 0x80 + 0x80 * high;
      Distribute(scale, b % 0x80, high);
      value, n, scale := value + scale * (b % 0x80), n + 1, scale * 0x80;
    }
  }

  lemma Distribute(scale: nat, low: nat, high: nat)
    ensures scale * (low + 0x80 * high) == scale * low + scale * 0x80 * high
  {
  }

  // ---------------------------------------------------------------------------------------------
  // Entries
  // ---------------------------------------------------------------------------------------------

  function FlagsOf(klen: nat, timed: bool, flagged: bool): (b: byte)
  {
    (if timed then 1 else 0) + (if flagged then 2 else 0) + (if klen <= KLEN_INLINE then 4 * (klen + 1) else 0)
  }

  function SizeOf(klen: nat, vlen: nat, timed: bool, flagged: bool): (n: nat)
  {
    1 + (if klen <= KLEN_INLINE then 0 else VarintLen(klen)) + VarintLen(vlen) + klen + vlen
    + (if timed then 4 else 0) + (if flagged then 4 else 0)
  }

  function SizeOfParts(p: Parts): nat
  {
    SizeOf(|p.key|, |p.value|, p.expiry.Some?, p.flags.Some?)
  }

  /** Lengths the layout can describe. */
  predicate Fits(p: Parts)
  {
    |p.key| < LENGTH_LIMIT && |p.value| < LENGTH_LIMIT
  }

  function KeyLength(klen: nat): seq<byte>
  {
    if klen <= KLEN_INLINE then [] else Leb(klen)
  }

  function Header(p: Parts): (s: seq<byte>)
  {
    [FlagsOf(|p.key|, p.expiry.Some?, p.flags.Some?)] + KeyLength(|p.key|) + Leb(|p.value|)
  }

  function WordOf(w: Option<u32>): (s: seq<byte>)
    ensures |s| == if w.Some? then 4 else 0
  {
    if w.Some? then WordBytes(w.value) else []
  }

  /** The bytes of an entry. */
  function Encode(p: Parts): (s: seq<byte>)
  {
    Header(p) + p.key + p.value + WordOf(p.expiry) + WordOf(p.flags)
  }

  /** An entry is exactly as long as the size rule says, and its header never longer than a peek. */
  lemma EncodeSize(p: Parts)
    requires Fits(p)
    ensures |Encode(p)| == SizeOfParts(p)
    ensures |Header(p)| <= MAX_HEADER && |Header(p)| <= |Encode(p)| && |Encode(p)| >= 2
    ensures Encode(p)[..|Header(p)|] == Header(p)
  {
    VarintLenExact(|p.key|);
    VarintLenExact(|p.value|);
  }

  /** Decode the header at the front of `bytes`; nothing when `bytes` ends inside it. */
  function HeadOf(bytes: seq<byte>): (h: Option<Head>)
  {
    if bytes == [] then None
    else
      var packed := bytes[0] / 4;
      var k := if packed == 0 then ReadLeb(bytes[1..]) else Some((packed - 1, 0));
      if k.None? then None
      else
        var v := ReadLeb(bytes[1 + k.value.1..]);
        if v.None? then None
        else Some(Head(bytes[0], 1 + k.value.1 + v.value.1, k.value.0, v.value.0))
  }

  function HeadFor(p: Parts): Head
  {
    Head(FlagsOf(|p.key|, p.expiry.Some?, p.flags.Some?), |Header(p)|, |p.key|, |p.value|)
  }

  lemma FlagsCarry(klen: nat, timed: bool, flagged: bool)
    ensures var f := FlagsOf(klen, timed, flagged);
            && (f % 2 == 1 <==> timed) && (f / 2 % 2 == 1 <==> flagged)
            && f / 4 == (if klen <= KLEN_INLINE then klen + 1 else 0)
  {
  }

  /** A header decodes from any bytes that begin with it: the entry alone, an over-long peek that ran
      into the next block, or a peek clamped short of the entry's end. */
  lemma HeadOfAny(p: Parts, rest: seq<byte>)
    ensures HeadOf(Header(p) + rest) == Some(HeadFor(p))
  {
    hide Leb, ReadLeb, FlagsOf, HeadOf;
    var f := FlagsOf(|p.key|, p.expiry.Some?, p.flags.Some?);
    var k, v := KeyLength(|p.key|), Leb(|p.value|);
    FlagsCarry(|p.key|, p.expiry.Some?, p.flags.Some?);
    LebRoundTrip(|p.value|, rest);
    LebRoundTrip(|p.key|, v + rest);
    HeadOfPieces(f, |p.key|, k, |p.value|, v, rest);
  }

  lemma HeadOfPieces(f: byte, klen: nat, k: seq<byte>, vlen: nat, v: seq<byte>, rest: seq<byte>)
    requires f / 4 == 0 ==> ReadLeb(k + (v + rest)) == Some((klen, |k|))
    requires f / 4 > 0 ==> k == [] && klen == f / 4 - 1
    requires ReadLeb(v + rest) == Some((vlen, |v|))
    ensures HeadOf([f] + k + v + rest) == Some(Head(f, 1 + |k| + |v|, klen, vlen))
  {
    hide ReadLeb;
    Front(f, k, v, rest);
  }

  lemma Front(f: byte, k: seq<byte>, v: seq<byte>, rest: seq<byte>)
    ensures var b := [f] + k + v + rest;
            b[0] == f && b[1..] == k + (v + rest) && b[1 + |k|..] == v + rest
  {
  }

  lemma HeadOfPeek(p: Parts, peek: seq<byte>)
    requires Fits(p)
    requires MAX_HEADER <= |Encode(p)| ==> peek == Encode(p)[..MAX_HEADER]
    requires MAX_HEADER > |Encode(p)| ==> Encode(p) <= peek
    ensures HeadOf(peek) == Some(HeadFor(p))
  {
    EncodeSize(p);
    var n := |Header(p)|;
    assert peek[..n] == Encode(p)[..n] == Header(p);
    assert peek == Header(p) + peek[n..];
    HeadOfAny(p, peek[n..]);
  }

  /** The header gives back the length the entry was allocated with. */
  lemma HeadSize(p: Parts)
    ensures HeadFor(p).Timed() == p.expiry.Some? && HeadFor(p).Flagged() == p.flags.Some?
    ensures HeadFor(p).Size() == |Encode(p)|
  {
  }

  /** Every part written is read back, and nothing else is. */
  lemma EncodeRoundTrip(p: Parts)
    ensures HeadOf(Encode(p)) == Some(HeadFor(p)) && HeadFor(p).Size() == |Encode(p)|
    ensures HeadFor(p).View(Encode(p)) == p
  {
    HeadSize(p);
    var rest := p.key + p.value + WordOf(p.expiry) + WordOf(p.flags);
    var b := Encode(p);
    HeadOfAny(p, rest);
    Pieces(Header(p), p.key, p.value, WordOf(p.expiry), WordOf(p.flags));
    hide WordBytes, Word, Header, FlagsOf, HeadOf;
    var at := |Header(p)| + |p.key| + |p.value|;
    if p.expiry.Some? {
      WordAt(b, at, p.expiry.value);
    }
    if p.flags.Some? {
      WordAt(b, at + |WordOf(p.expiry)|, p.flags.value);
    }
  }

  lemma Pieces(h: seq<byte>, k: seq<byte>, v: seq<byte>, e: seq<byte>, f: seq<byte>)
    ensures var b := h + k + v + e + f;
            && b == h + (k + v + e + f)
            && b[|h|..|h| + |k|] == k
            && b[|h| + |k|..|h| + |k| + |v|] == v
            && b[|h| + |k| + |v|..|h| + |k| + |v| + |e|] == e
            && b[|h| + |k| + |v| + |e|..|h| + |k| + |v| + |e| + |f|] == f
  {
  }

  lemma WordAt(b: seq<byte>, at: nat, w: u32)
    requires at + 4 <= |b| && b[at..at + 4] == WordBytes(w)
    ensures Word(b, at) == w
  {
    var s := WordBytes(w);
    assert b[at] == s[0] && b[at + 1] == s[1] && b[at + 2] == s[2] && b[at + 3] == s[3] by {
      assert b[at..at + 4][0] == b[at] && b[at..at + 4][1] == b[at + 1];
      assert b[at..at + 4][2] == b[at + 2] && b[at..at + 4][3] == b[at + 3];
    }
  }

  /** Replacing the expiry word in place is the entry with the other expiry. */
  lemma RetimeInPlace(p: Parts, when: u32)
    requires p.expiry.Some?
    ensures var at := |Header(p)| + |p.key| + |p.value|;
            at + 4 <= |Encode(p)| && Splice(Encode(p), at, WordBytes(when)) == Encode(p.(expiry := Some(when)))
  {
    var q := p.(expiry := Some(when));
    var at := |Header(p)| + |p.key| + |p.value|;
    var front := Header(p) + p.key + p.value;
    assert Header(q) == Header(p);
    assert Encode(p) == front + WordBytes(p.expiry.value) + WordOf(p.flags);
    assert Encode(q) == front + WordBytes(when) + WordOf(p.flags);
  }

  /** Write the flags byte and the two lengths. */
  method WriteHeader(into: seq<byte>, p: Parts) returns (out: seq<byte>, at: nat)
    requires |Header(p)| <= |into|
    ensures at == |Header(p)| && out == Splice(into, 0, Header(p))
  {
    hide Leb, FlagsOf;
    out := into[0 := FlagsOf(|p.key|, p.expiry.Some?, p.flags.Some?)];
    at := 1;
    var n;
    if |p.key| > KLEN_INLINE {
      out, n := PutVarint(out, at, |p.key|);
      SpliceTwice(into, 0, [FlagsOf(|p.key|, p.expiry.Some?, p.flags.Some?)], Leb(|p.key|));
      at := at + n;
    }
    ghost var front := [FlagsOf(|p.key|, p.expiry.Some?, p.flags.Some?)] + KeyLength(|p.key|);
    assert out == Splice(into, 0, front);
    SpliceTwice(into, 0, front, Leb(|p.value|));
    out, n := PutVarint(out, at, |p.value|);
    at := at + n;
  }

  /** Write a whole entry over `into`, which is exactly as long as the size rule says. */
  method Write(into: seq<byte>, p: Parts) returns (out: seq<byte>)
    requires Fits(p) && |into| == SizeOfParts(p)
    ensures out == Encode(p)
  {
    EncodeSize(p);
    hide Header, WordBytes, SizeOf;
    var at;
    out, at := WriteHeader(into, p);
    Filled(into, 0, Header(p));
    Filled(out, at, p.key);
    out, at := Splice(out, at, p.key), at + |p.key|;
    Filled(out, at, p.value);
    out, at := Splice(out, at, p.value), at + |p.value|;
    Filled(out, at, WordOf(p.expiry));
    out, at := Splice(out, at, WordOf(p.expiry)), at + |WordOf(p.expiry)|;
    Filled(out, at, WordOf(p.flags));
    out := Splice(out, at, WordOf(p.flags));
  }

  lemma SpliceTwice(s: seq<byte>, at: nat, x: seq<byte>, y: seq<byte>)
    requires at + |x| + |y| <= |s|
    ensures Splice(Splice(s, at, x), at + |x|, y) == Splice(s, at, x + y)
  {
  }

  /** Writing past what is already there extends it. */
  lemma Filled(s: seq<byte>, at: nat, bytes: seq<byte>)
    requires at + |bytes| <= |s|
    ensures Splice(s, at, bytes)[..at + |bytes|] == s[..at] + bytes
  {
  }
}
