/** Bytes, machine words and the small wrappers every other module uses. */
module Bytes {

  type byte = x: int | 0 <= x < 0x100

  type u32 = x: int | 0 <= x < 0x1_0000_0000

  type u64 = x: int | 0 <= x < 0x1_0000_0000_0000_0000

  datatype Option<+T> = None | Some(value: T)

  datatype Result<+T, +E> = Ok(value: T) | Err(error: E)

  /** The little-endian word at `at`, which is what a free block's link and an entry's trailer are. */
  function Word(s: seq<byte>, at: nat): (w: u32)
    requires at + 4 <= |s|
  {
    s[at] as int + 0x100 * (s[at + 1] as int + 0x100 * (s[at + 2] as int + 0x100 * s[at + 3] as int))
  }

  /** The four bytes of `w`, least significant first. */
  function WordBytes(w: u32): (s: seq<byte>)
    ensures |s| == 4
    ensures Word(s, 0) == w
  {
    var a := w / 0x100;
    var b := a / 0x100;
    [w % 0x100, a % 0x100, b % 0x100, b / 0x100]
  }

  /** `s` with `bytes` written over it from `at` on. */
  function Splice(s: seq<byte>, at: nat, bytes: seq<byte>): (r: seq<byte>)
    requires at + |bytes| <= |s|
    ensures |r| == |s|
    ensures r[at..at + |bytes|] == bytes
    ensures forall i :: 0 <= i < at || at + |bytes| <= i < |s| ==> r[i] == s[i]
  {
    s[..at] + bytes + s[at + |bytes|..]
  }

  /** A word written anywhere reads back as itself. */
  lemma WordSplice(s: seq<byte>, at: nat, w: u32)
    requires at + 4 <= |s|
    ensures Word(Splice(s, at, WordBytes(w)), at) == w
  {
    var r := Splice(s, at, WordBytes(w));
    var b := WordBytes(w);
    assert r[at..at + 4] == b;
    assert r[at] == b[0] && r[at + 1] == b[1] && r[at + 2] == b[2] && r[at + 3] == b[3];
  }

  /** No two of `s` are the same. */
  ghost predicate Distinct<T>(s: seq<T>)
  {
    forall i, j :: 0 <= i < j < |s| ==> s[i] != s[j]
  }
}
