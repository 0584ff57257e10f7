/** The slab's own fields as values, and what handing out a small block does to them in any state at all. */
module Cursor {
  import opened Bytes
  import opened ArenaLayout

  /** The segments, where the next block is cut, the free lists' heads, and the bytes held. */
  datatype Cutter = Cutter(segs: Segments, seg: nat, off: nat, free: seq<u32>, held: nat, lazy: bool)

  /** Units left uncut in the newest segment. */
  function Uncut(f: Cutter): nat
  {
    if f.seg < |f.segs| && GRAIN * f.off <= |f.segs[f.seg]| then |f.segs[f.seg]| / GRAIN - f.off else 0
  }

  /** The reference the next block cut would have. */
  function Tail(f: Cutter): u32
  {
    if f.seg < MAX_SEGMENTS && f.off < UNITS then Make(f.seg, f.off) else NONE
  }

  ghost function LinkAt(segs: Segments, at: u32): u32
  {
    if InSegment(segs, at, GRAIN) then Link(segs, at) else NONE
  }

  ghost function Linked(segs: Segments, at: u32, next: u32): (r: Segments)
    ensures |r| == |segs| && forall s :: 0 <= s < |segs| ==> |r[s]| == |segs[s]|
  {
    if InSegment(segs, at, GRAIN) then Write(segs, at, WordBytes(next)) else segs
  }

  function Reaching(f: Cutter, c: nat): Cutter
  {
    if c < |f.free| then f else f.(free := f.free + seq(c + 1 - |f.free|, _ => NONE))
  }

  ghost function HeadTaken(f: Cutter, c: nat): Cutter
    requires c < |f.free|
  {
    f.(free := f.free[c := LinkAt(f.segs, f.free[c])])
  }

  /** The tail put on the free list of whatever class it happens to be, and not cut. */
  ghost function TailListed(f: Cutter): Cutter
    requires 0 < Uncut(f) <= |f.free|
  {
    var c := Uncut(f) - 1;
    f.(segs := Linked(f.segs, Tail(f), f.free[c]), free := f.free[c := Tail(f)])
  }

  /** Listing the tail adds no segment, cuts nothing, and leaves every other list as it was. */
  lemma ListingLeavesTheRest(f: Cutter)
    requires 0 < Uncut(f) <= |f.free|
    ensures var g := TailListed(f);
            && |g.segs| == |f.segs| && Uncut(g) == Uncut(f) && |g.free| == |f.free|
            && forall c :: 0 <= c < |f.free| && c != Uncut(f) - 1 ==> g.free[c] == f.free[c]
  {
  }

  function Grown(f: Cutter): Cutter
  {
    var size := NextSegmentSize(f.lazy, f.held);
    f.(segs := f.segs + [Zeros(size)], seg := |f.segs|, off := 0, held := f.held + size)
  }

  function Advanced(f: Cutter, c: nat): Cutter
  {
    f.(off := f.off + c + 1)
  }

  /** A block of class `c`, step for step: a freed one, one cut, or one cut from another segment. */
  ghost function Served(f: Cutter, c: nat, granted: bool): (Cutter, Result<u32, Full>)
  {
    var g := Reaching(f, c);
    if g.free[c] != NONE then (HeadTaken(g, c), Ok(g.free[c]))
    else if c < Uncut(g) then (Advanced(g, c), Ok(Tail(g)))
    else
      var s := if Uncut(g) > 0 then TailListed(g) else g;
      if |s.segs| >= MAX_SEGMENTS then (s, Err(Full.Slab))
      else if !granted then (s, Err(Full.Memory))
      else (Advanced(Grown(s), c), Ok(Tail(Grown(s))))
  }

  // ---------------------------------------------------------------------------------------------
  // What a refusal leaves
  // ---------------------------------------------------------------------------------------------

  /** Once a request has been refused over an uncut tail, the next two of the tail's own class are both given the
      tail: two live blocks under one reference. */
  lemma TailIsServedTwice(f: Cutter, c: nat, granted: bool, once: bool, twice: bool)
    requires c < |f.free| && f.free[c] == NONE && 0 < Uncut(f) <= c && f.free[Uncut(f) - 1] == NONE
    requires f.seg < |f.segs| <= MAX_SEGMENTS && |f.segs[f.seg]| <= UNITS * GRAIN
    requires |f.segs| == MAX_SEGMENTS || !granted
    ensures
      var own := Uncut(f) - 1;
      var (g, refused) := Served(f, c, granted);
      var (h, first) := Served(g, own, once);
      var (k, second) := Served(h, own, twice);
      refused.Err? && first == second == Ok(Tail(f))
  {
    hide SegOf, OffOf, Make;
    var own := Uncut(f) - 1;
    TailIsInside(f);
    var g := TailListed(f);
    LinkIsRead(f.segs, Tail(f), NONE);
    assert Served(f, c, granted).0 == g;
    assert Uncut(g) == Uncut(f) && Tail(g) == Tail(f);
    var h := HeadTaken(g, own);
    assert h.free[own] == NONE;
    assert Uncut(h) == Uncut(f);
  }

  lemma TailIsInside(f: Cutter)
    requires f.seg < |f.segs| <= MAX_SEGMENTS && |f.segs[f.seg]| <= UNITS * GRAIN && 0 < Uncut(f)
    ensures InSegment(f.segs, Tail(f), GRAIN) && Tail(f) != NONE && Tail(f) < LARGE
  {
    assert f.off < UNITS;
  }

  lemma LinkIsRead(segs: Segments, at: u32, next: u32)
    requires InSegment(segs, at, GRAIN)
    ensures LinkAt(Linked(segs, at, next), at) == next
  {
    WordSplice(segs[SegOf(at)], OffOf(at), next);
  }

  /** A run that does it: two blocks that all but fill the first segment, a request refused, and two small ones. */
  lemma OneReferenceTwice()
    ensures
      var empty := Cutter([], 0, 0, [], 0, false);
      var (a, x) := Served(empty, ClassOf(2048).value, true);
      var (b, y) := Served(a, ClassOf(2044).value, true);
      var (d, z) := Served(b, ClassOf(8).value, false);
      var (e, first) := Served(d, ClassOf(4).value, true);
      var (f, second) := Served(e, ClassOf(4).value, true);
      x == Ok(0) && y == Ok(512) && z.Err? && first == second == Ok(1023)
  {
    hide Served;
    var empty := Cutter([], 0, 0, [], 0, false);
    var a := FirstBlock(empty);
    SecondBlock(a);
    var b := Served(a, 510, true).0;
    assert Uncut(b) == 1;
    TailIsServedTwice(b, 1, false, true, true);
  }

  lemma FirstBlock(empty: Cutter) returns (a: Cutter)
    requires empty == Cutter([], 0, 0, [], 0, false)
    ensures Served(empty, 511, true) == (a, Ok(0))
    ensures |a.segs| == 1 && |a.segs[0]| == 4096 && a.seg == 0 && a.off == 512 && |a.free| == 512
    ensures forall i :: 0 <= i < 512 ==> a.free[i] == NONE
  {
    FirstSegment();
    hide NextSegmentSize;
    a := Advanced(Grown(Reaching(empty, 511)), 511);
    assert Uncut(Reaching(empty, 511)) == 0;
  }

  lemma SecondBlock(a: Cutter)
    requires |a.segs| == 1 && |a.segs[0]| == 4096 && a.seg == 0 && a.off == 512 && |a.free| == 512
        && a.free[510] == NONE
    ensures Served(a, 510, true) == (a.(off := 1023), Ok(512))
  {
    hide NextSegmentSize;
    assert Uncut(a) == 512;
  }

  lemma FirstSegment()
    ensures NextSegmentSize(false, 0) == 4096
  {
  }
}
