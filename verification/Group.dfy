/** A group of control bytes compared at once: the lane contract every implementation meets, and the
    word-at-a-time implementation of it, borrows and all. */
module Group {
  import opened Bytes

  const EMPTY: bv8 := 0x80
  const DELETED: bv8 := 0xFE

  predicate IsFull(ctrl: bv8) { ctrl & 0x80 == 0 }

  predicate IsCtrl(ctrl: bv8) { IsFull(ctrl) || ctrl == EMPTY || ctrl == DELETED }

  /** Bits 32 to 38 of the hash, the top bit clear so that no tag is mistaken for a marker. */
  function TagOf(hash: u64): (tag: bv8)
    ensures IsFull(tag)
  {
    (hash / 0x1_0000_0000 % 0x100) as bv8 & 0x7f
  }

  predicate Controls(lanes: seq<bv8>)
  {
    forall i :: 0 <= i < |lanes| ==> IsCtrl(lanes[i])
  }

  ghost predicate Ascending(found: seq<nat>)
  {
    forall i, j :: 0 <= i < j < |found| ==> found[i] < found[j]
  }

  /** What a tag comparison reports: every matching lane, once, in ascending order, and beyond those
      only lanes that hold some other entry, never an empty or deleted one. */
  ghost predicate Reports(lanes: seq<bv8>, tag: bv8, found: seq<nat>)
  {
    && Ascending(found)
    && (forall n :: n in found ==> n < |lanes| && IsFull(lanes[n]))
    && (forall i :: 0 <= i < |lanes| && lanes[i] == tag ==> i in found)
  }

  // ---------------------------------------------------------------------------------------------
  // Masks with one bit in eight
  // ---------------------------------------------------------------------------------------------

  const ONES: bv64 := 0x0101_0101_0101_0101
  const HIGHS: bv64 := 0x8080_8080_8080_8080

  /** Every bit of lane `i`. */
  function LaneBits(i: nat): bv64
    requires i < 8
  {
    if i == 0 then 0xff
    else if i == 1 then 0xff00
    else if i == 2 then 0xff_0000
    else if i == 3 then 0xff00_0000
    else if i == 4 then 0xff_0000_0000
    else if i == 5 then 0xff00_0000_0000
    else if i == 6 then 0xff_0000_0000_0000
    else 0xff00_0000_0000_0000
  }

  /** The top bit of lane `i`. */
  function TopBit(i: nat): bv64
    requires i < 8
  {
    if i == 0 then 0x80
    else if i == 1 then 0x8000
    else if i == 2 then 0x80_0000
    else if i == 3 then 0x8000_0000
    else if i == 4 then 0x80_0000_0000
    else if i == 5 then 0x8000_0000_0000
    else if i == 6 then 0x80_0000_0000_0000
    else 0x8000_0000_0000_0000
  }

  function And(a: bv64, b: bv64): bv64 { a & b }

  /** All bits but those of lane `i`. */
  function OtherBits(i: nat): bv64
    requires i < 8
  {
    !LaneBits(i)
  }

  /** `m` with every bit of lane `i` cleared. */
  function Clear(m: bv64, i: nat): bv64
    requires i < 8
  {
    And(m, OtherBits(i))
  }

  /** Lane `i` is marked: its top bit is set. */
  predicate Marked(m: bv64, i: nat)
    requires i < 8
  {
    And(m, TopBit(i)) != 0
  }

  /** A mask marks lanes by their top bits and has no other bit set. */
  predicate IsMask(m: bv64) { m & !HIGHS == 0 }

  /** A mask with no lane marked is zero, and zero marks no lane. */
  lemma MaskHasLane(m: bv64)
    requires IsMask(m)
    ensures m != 0 ==> exists i :: 0 <= i < 8 && Marked(m, i)
    ensures m == 0 ==> forall i :: 0 <= i < 8 ==> !Marked(m, i)
  {
    if m != 0 {
      assert m & 0x80 != 0 || m & 0x8000 != 0 || m & 0x80_0000 != 0 || m & 0x8000_0000 != 0 || m & 0x80_0000_0000 != 0
          || m & 0x8000_0000_0000 != 0 || m & 0x80_0000_0000_0000 != 0 || m & 0x8000_0000_0000_0000 != 0;
      assert Marked(m, 0) || Marked(m, 1) || Marked(m, 2) || Marked(m, 3)
          || Marked(m, 4) || Marked(m, 5) || Marked(m, 6) || Marked(m, 7);
    }
  }

  /** The lowest marked lane: trailing zeros over the stride, since only top bits are ever set. */
  method Lowest(m: bv64) returns (r: Option<nat>)
    requires IsMask(m)
    ensures r.None? <==> m == 0
    ensures r.Some? ==> r.value < 8 && Marked(m, r.value) && forall j :: 0 <= j < r.value ==> !Marked(m, j)
  {
    if m == 0 {
      return None;
    }
    MaskHasLane(m);
    hide Marked;
    var i := 0;
    while !Marked(m, i)
      invariant i < 8
      invariant forall j :: 0 <= j < i ==> !Marked(m, j)
      invariant exists k :: i <= k < 8 && Marked(m, k)
      decreases 8 - i
    {
      i := i + 1;
    }
    return Some(i);
  }

  lemma ClearLane(m: bv64, i: nat, j: nat)
    requires i < 8 && j < 8 && IsMask(m)
    ensures IsMask(Clear(m, i)) && (Marked(Clear(m, i), j) <==> Marked(m, j) && j != i)
  {
    hide Marked, IsMask, Clear;
    ClearIsMask(m, i);
    ClearMarks(m, i, j);
  }

  lemma ClearIsMask(m: bv64, i: nat)
    requires i < 8 && IsMask(m)
    ensures IsMask(Clear(m, i))
  {
    hide OtherBits;
    FewerBits(m, OtherBits(i));
  }

  lemma FewerBits(m: bv64, keep: bv64)
    requires IsMask(m)
    ensures IsMask(And(m, keep))
  {
  }

  lemma ClearMarks(m: bv64, i: nat, j: nat)
    requires i < 8 && j < 8
    ensures Marked(Clear(m, i), j) <==> Marked(m, j) && j != i
  {
    hide OtherBits, TopBit, And;
    BitElsewhere(i, j);
    KeptBit(m, OtherBits(i), TopBit(j));
  }

  /** A bit survives clearing when it is among those kept, and does not when it is not. */
  lemma KeptBit(m: bv64, keep: bv64, bit: bv64)
    ensures And(keep, bit) == bit ==> And(And(m, keep), bit) == And(m, bit)
    ensures And(keep, bit) == 0 ==> And(And(m, keep), bit) == 0
  {
  }

  /** A lane's top bit is outside every other lane. */
  lemma BitElsewhere(i: nat, j: nat)
    requires i < 8 && j < 8
    ensures And(OtherBits(i), TopBit(j)) == if i == j then 0 else TopBit(j)
  {
    if i == 0 {
    } else if i == 1 {
    } else if i == 2 {
    } else if i == 3 {
    } else if i == 4 {
    } else if i == 5 {
    } else if i == 6 {
    } else {
    }
  }

  /** Iterating a mask reports each marked lane once, in ascending order. */
  method Lanes(mask: bv64) returns (found: seq<nat>)
    requires IsMask(mask)
    ensures Ascending(found)
    ensures forall n: nat :: n in found <==> n < 8 && Marked(mask, n)
  {
    hide Marked, Clear, IsMask;
    found := [];
    var m, done := mask, 0;
    while m != 0
      invariant IsMask(m) && 0 <= done <= 8
      invariant Ascending(found) && forall k :: 0 <= k < |found| ==> found[k] < done
      invariant forall n: nat :: n in found <==> n < done && n < 8 && Marked(mask, n)
      invariant forall j :: 0 <= j < 8 ==> (Marked(m, j) <==> Marked(mask, j) && done <= j)
      decreases 8 - done
    {
      var at := Lowest(m);
      forall j | 0 <= j < 8
        ensures IsMask(Clear(m, at.value)) && (Marked(Clear(m, at.value), j) <==> Marked(m, j) && j != at.value)
      {
        ClearLane(m, at.value, j);
      }
      ClearLane(m, at.value, 0);
      assert forall n: nat :: n in found + [at.value] <==> n in found || n == at.value;
      found := found + [at.value];
      m := Clear(m, at.value);
      done := at.value + 1;
    }
    MaskHasLane(m);
  }

  // ---------------------------------------------------------------------------------------------
  // Eight lanes in a word
  // ---------------------------------------------------------------------------------------------

  /** The byte in lane `i` of a word. */
  function LaneAt(w: bv64, i: nat): bv8
    requires i < 8
  {
    if i == 0 then ((w >> 0) & 0xff) as bv8
    else if i == 1 then ((w >> 8) & 0xff) as bv8
    else if i == 2 then ((w >> 16) & 0xff) as bv8
    else if i == 3 then ((w >> 24) & 0xff) as bv8
    else if i == 4 then ((w >> 32) & 0xff) as bv8
    else if i == 5 then ((w >> 40) & 0xff) as bv8
    else if i == 6 then ((w >> 48) & 0xff) as bv8
    else ((w >> 56) & 0xff) as bv8
  }

  /** Eight control bytes read as a little-endian word. */
  function Load(lanes: seq<bv8>): bv64
    requires |lanes| == 8
  {
    (lanes[0] as bv64) | (lanes[1] as bv64 << 8) | (lanes[2] as bv64 << 16) | (lanes[3] as bv64 << 24)
    | (lanes[4] as bv64 << 32) | (lanes[5] as bv64 << 40) | (lanes[6] as bv64 << 48) | (lanes[7] as bv64 << 56)
  }

  lemma LoadLanes(lanes: seq<bv8>)
    requires |lanes| == 8
    ensures LaneAt(Load(lanes), 0) == lanes[0]
    ensures LaneAt(Load(lanes), 1) == lanes[1]
    ensures LaneAt(Load(lanes), 2) == lanes[2]
    ensures LaneAt(Load(lanes), 3) == lanes[3]
    ensures LaneAt(Load(lanes), 4) == lanes[4]
    ensures LaneAt(Load(lanes), 5) == lanes[5]
    ensures LaneAt(Load(lanes), 6) == lanes[6]
    ensures LaneAt(Load(lanes), 7) == lanes[7]
  {
  }

  /** The zero-byte trick: exclusive-or makes wanted lanes zero, and subtracting one from every lane
      lights the top bit of each of them, and of a lane a borrow ran into. */
  function MatchByte(w: bv64, b: bv8): bv64
  {
    Lit(Xor(w, Spread(b)))
  }

  function MatchFree(w: bv64): bv64
  {
    And(w, HIGHS)
  }

  /** `b` in every lane. */
  function Spread(b: bv8): bv64
  {
    ONES * (b as bv64)
  }

  lemma SpreadLanes(b: bv8)
    ensures LaneAt(Spread(b), 0) == b
    ensures LaneAt(Spread(b), 1) == b
    ensures LaneAt(Spread(b), 2) == b
    ensures LaneAt(Spread(b), 3) == b
    ensures LaneAt(Spread(b), 4) == b
    ensures LaneAt(Spread(b), 5) == b
    ensures LaneAt(Spread(b), 6) == b
    ensures LaneAt(Spread(b), 7) == b
  {
  }

  function Xor(w: bv64, v: bv64): bv64 { w ^ v }

  function Xor8(a: bv8, b: bv8): bv8 { a ^ b }

  /** The lanes of `x` the subtraction lights. */
  function Lit(x: bv64): bv64
  {
    (x - ONES) & !x & HIGHS
  }

  /** How a lane is lit: it is zero, or it is one and the lane below was lit and so borrowed. */
  lemma LitLanes(x: bv64)
    ensures IsMask(Lit(x))
    ensures Marked(Lit(x), 0) <==> LaneAt(x, 0) == 0
    ensures Marked(Lit(x), 1) <==> LaneAt(x, 1) == 0 || (LaneAt(x, 1) == 1 && Marked(Lit(x), 0))
    ensures Marked(Lit(x), 2) <==> LaneAt(x, 2) == 0 || (LaneAt(x, 2) == 1 && Marked(Lit(x), 1))
    ensures Marked(Lit(x), 3) <==> LaneAt(x, 3) == 0 || (LaneAt(x, 3) == 1 && Marked(Lit(x), 2))
    ensures Marked(Lit(x), 4) <==> LaneAt(x, 4) == 0 || (LaneAt(x, 4) == 1 && Marked(Lit(x), 3))
    ensures Marked(Lit(x), 5) <==> LaneAt(x, 5) == 0 || (LaneAt(x, 5) == 1 && Marked(Lit(x), 4))
    ensures Marked(Lit(x), 6) <==> LaneAt(x, 6) == 0 || (LaneAt(x, 6) == 1 && Marked(Lit(x), 5))
    ensures Marked(Lit(x), 7) <==> LaneAt(x, 7) == 0 || (LaneAt(x, 7) == 1 && Marked(Lit(x), 6))
  {
  }

  lemma LitLane(x: bv64, i: nat)
    requires i < 8
    ensures IsMask(Lit(x))
    ensures Marked(Lit(x), i) <==> LaneAt(x, i) == 0 || (i > 0 && LaneAt(x, i) == 1 && Marked(Lit(x), i - 1))
  {
    hide Lit, LaneAt, Marked, IsMask;
    LitLanes(x);
    if i == 0 {
    } else if i == 1 {
    } else if i == 2 {
    } else if i == 3 {
    } else if i == 4 {
    } else if i == 5 {
    } else if i == 6 {
    } else {
    }
  }

  lemma LoadLane(lanes: seq<bv8>, i: nat)
    requires |lanes| == 8 && i < 8
    ensures LaneAt(Load(lanes), i) == lanes[i]
  {
    LoadLanes(lanes);
    hide LaneAt, Load;
    if i == 0 {
    } else if i == 1 {
    } else if i == 2 {
    } else if i == 3 {
    } else if i == 4 {
    } else if i == 5 {
    } else if i == 6 {
    } else {
    }
  }

  lemma SpreadLane(x: bv8, i: nat)
    requires i < 8
    ensures LaneAt(Spread(x), i) == x
  {
    SpreadLanes(x);
    hide LaneAt, Spread;
    if i == 0 {
    } else if i == 1 {
    } else if i == 2 {
    } else if i == 3 {
    } else if i == 4 {
    } else if i == 5 {
    } else if i == 6 {
    } else {
    }
  }

  lemma XorLanes(w: bv64, v: bv64)
    ensures LaneAt(w ^ v, 0) == LaneAt(w, 0) ^ LaneAt(v, 0)
    ensures LaneAt(w ^ v, 1) == LaneAt(w, 1) ^ LaneAt(v, 1)
    ensures LaneAt(w ^ v, 2) == LaneAt(w, 2) ^ LaneAt(v, 2)
    ensures LaneAt(w ^ v, 3) == LaneAt(w, 3) ^ LaneAt(v, 3)
    ensures LaneAt(w ^ v, 4) == LaneAt(w, 4) ^ LaneAt(v, 4)
    ensures LaneAt(w ^ v, 5) == LaneAt(w, 5) ^ LaneAt(v, 5)
    ensures LaneAt(w ^ v, 6) == LaneAt(w, 6) ^ LaneAt(v, 6)
    ensures LaneAt(w ^ v, 7) == LaneAt(w, 7) ^ LaneAt(v, 7)
  {
  }

  lemma XorLane(w: bv64, v: bv64, i: nat)
    requires i < 8
    ensures LaneAt(Xor(w, v), i) == Xor8(LaneAt(w, i), LaneAt(v, i))
  {
    hide LaneAt;
    XorLanes(w, v);
    if i == 0 {
    } else if i == 1 {
    } else if i == 2 {
    } else if i == 3 {
    } else if i == 4 {
    } else if i == 5 {
    } else if i == 6 {
    } else {
    }
  }

  lemma XorSmall(a: bv8, x: bv8)
    ensures Xor8(a, x) == 0 <==> a == x
    ensures Xor8(a, x) == 1 <==> a == Xor8(x, 1)
  {
  }

  lemma ComparedLane(lanes: seq<bv8>, x: bv8, i: nat)
    requires |lanes| == 8 && i < 8
    ensures LaneAt(Xor(Load(lanes), Spread(x)), i) == Xor8(lanes[i], x)
  {
    hide LaneAt, Load, Spread, Xor, Xor8;
    LoadLane(lanes, i);
    SpreadLane(x, i);
    XorLane(Load(lanes), Spread(x), i);
  }

  /** Exactly which lanes a comparison marks: those that match, and those that hold the byte with its
      lowest bit flipped just above a marked lane, which a borrow runs into. */
  lemma MarkedExactly(lanes: seq<bv8>, x: bv8, i: nat)
    requires |lanes| == 8 && i < 8
    ensures IsMask(MatchByte(Load(lanes), x))
    ensures Marked(MatchByte(Load(lanes), x), i) <==>
              lanes[i] == x || (i > 0 && lanes[i] == Xor8(x, 1) && Marked(MatchByte(Load(lanes), x), i - 1))
  {
    hide Lit, LaneAt, Load, Spread, Marked, IsMask, Xor, Xor8;
    ComparedLane(lanes, x, i);
    XorSmall(lanes[i], x);
    LitLane(Xor(Load(lanes), Spread(x)), i);
  }

  /** A tag comparison marks every matching lane, and no lane that is empty or deleted. */
  lemma MatchTag(lanes: seq<bv8>, tag: bv8, i: nat)
    requires |lanes| == 8 && IsFull(tag) && i < 8
    ensures IsMask(MatchByte(Load(lanes), tag))
    ensures lanes[i] == tag ==> Marked(MatchByte(Load(lanes), tag), i)
    ensures Marked(MatchByte(Load(lanes), tag), i) ==> IsFull(lanes[i])
  {
    hide MatchByte, Load, Marked, IsMask;
    MarkedExactly(lanes, tag, i);
  }

  /** Looking for the empty marker is exact: the byte a borrow could add is no control byte. */
  lemma MatchEmptyExact(lanes: seq<bv8>, i: nat)
    requires |lanes| == 8 && Controls(lanes) && i < 8
    ensures IsMask(MatchByte(Load(lanes), EMPTY))
    ensures Marked(MatchByte(Load(lanes), EMPTY), i) <==> lanes[i] == EMPTY
  {
    hide MatchByte, Load, Marked, IsMask;
    MarkedExactly(lanes, EMPTY, i);
    assert IsCtrl(lanes[i]);
  }

  // The top bit of each lane of a word, one lane at a time.

  lemma TopOf0(w: bv64)
    ensures And(w, 0x80) == 0 <==> IsFull(LaneAt(w, 0))
  {
  }

  lemma TopOf1(w: bv64)
    ensures And(w, 0x8000) == 0 <==> IsFull(LaneAt(w, 1))
  {
  }

  lemma TopOf2(w: bv64)
    ensures And(w, 0x80_0000) == 0 <==> IsFull(LaneAt(w, 2))
  {
  }

  lemma TopOf3(w: bv64)
    ensures And(w, 0x8000_0000) == 0 <==> IsFull(LaneAt(w, 3))
  {
  }

  lemma TopOf4(w: bv64)
    ensures And(w, 0x80_0000_0000) == 0 <==> IsFull(LaneAt(w, 4))
  {
  }

  lemma TopOf5(w: bv64)
    ensures And(w, 0x8000_0000_0000) == 0 <==> IsFull(LaneAt(w, 5))
  {
  }

  lemma TopOf6(w: bv64)
    ensures And(w, 0x80_0000_0000_0000) == 0 <==> IsFull(LaneAt(w, 6))
  {
  }

  lemma TopOf7(w: bv64)
    ensures And(w, 0x8000_0000_0000_0000) == 0 <==> IsFull(LaneAt(w, 7))
  {
  }

  lemma MarkedLane(w: bv64, i: nat)
    requires i < 8
    ensures Marked(w, i) <==> !IsFull(LaneAt(w, i))
  {
    hide LaneAt, And, IsFull;
    if i == 0 {
      TopOf0(w);
    } else if i == 1 {
      TopOf1(w);
    } else if i == 2 {
      TopOf2(w);
    } else if i == 3 {
      TopOf3(w);
    } else if i == 4 {
      TopOf4(w);
    } else if i == 5 {
      TopOf5(w);
    } else if i == 6 {
      TopOf6(w);
    } else {
      TopOf7(w);
    }
  }

  lemma HighBit(i: nat)
    requires i < 8
    ensures And(HIGHS, TopBit(i)) == TopBit(i)
  {
  }

  lemma HighsAreAMask(w: bv64)
    ensures IsMask(And(w, HIGHS))
  {
  }

  lemma MatchFreeExact(lanes: seq<bv8>, i: nat)
    requires |lanes| == 8 && i < 8
    ensures IsMask(MatchFree(Load(lanes)))
    ensures Marked(MatchFree(Load(lanes)), i) <==> !IsFull(lanes[i])
  {
    hide Load, TopBit, And, IsFull, IsMask, LaneAt;
    var w := Load(lanes);
    LoadLane(lanes, i);
    MarkedLane(w, i);
    HighBit(i);
    HighsAreAMask(w);
    KeptBit(w, HIGHS, TopBit(i));
  }

  /** The tag comparison is not exact: here it reports a lane that holds another tag. */
  lemma BorrowReportsAnotherTag()
    ensures var lanes: seq<bv8> := [5, 4, EMPTY, EMPTY, EMPTY, EMPTY, EMPTY, EMPTY];
            lanes[1] != 5 && Marked(MatchByte(Load(lanes), 5), 1)
  {
    MarkedExactly([5, 4, EMPTY, EMPTY, EMPTY, EMPTY, EMPTY, EMPTY], 5, 0);
    MarkedExactly([5, 4, EMPTY, EMPTY, EMPTY, EMPTY, EMPTY, EMPTY], 5, 1);
  }

  // ---------------------------------------------------------------------------------------------
  // The operations a probe uses, at either width
  // ---------------------------------------------------------------------------------------------

  /** The lanes a probe has to look at for `tag`. At eight lanes this is the word arithmetic; at sixteen
      it is what a vector comparison reports, which is the matching lanes themselves. */
  method Match(lanes: seq<bv8>, tag: bv8) returns (found: seq<nat>)
    requires |lanes| == 8 || |lanes| == 16
    requires IsFull(tag)
    ensures Reports(lanes, tag, found)
  {
    if |lanes| == 8 {
      MatchTag(lanes, tag, 0);
      found := Lanes(MatchByte(Load(lanes), tag));
      forall i | 0 <= i < 8
        ensures lanes[i] == tag ==> i in found
        ensures i in found ==> IsFull(lanes[i])
      {
        MatchTag(lanes, tag, i);
      }
    } else {
      found := [];
      for i := 0 to |lanes|
        invariant Ascending(found) && forall k :: 0 <= k < |found| ==> found[k] < i
        invariant forall n: nat :: n in found <==> n < i && lanes[n] == tag
      {
        if lanes[i] == tag {
          found := found + [i];
        }
      }
    }
  }

  /** Whether a probe may stop here. */
  method AnyEmpty(lanes: seq<bv8>) returns (any: bool)
    requires |lanes| == 8 || |lanes| == 16
    requires Controls(lanes)
    ensures any <==> EMPTY in lanes
  {
    var lane := LowestEmpty(lanes);
    any := lane.Some?;
  }

  /** The lowest empty lane. */
  method LowestEmpty(lanes: seq<bv8>) returns (r: Option<nat>)
    requires |lanes| == 8 || |lanes| == 16
    requires Controls(lanes)
    ensures r.None? <==> EMPTY !in lanes
    ensures r.Some? ==> r.value < |lanes| && lanes[r.value] == EMPTY && EMPTY !in lanes[..r.value]
  {
    if |lanes| == 8 {
      forall i | 0 <= i < 8
        ensures IsMask(MatchByte(Load(lanes), EMPTY))
        ensures Marked(MatchByte(Load(lanes), EMPTY), i) <==> lanes[i] == EMPTY
      {
        MatchEmptyExact(lanes, i);
      }
      MatchEmptyExact(lanes, 0);
      hide MatchByte, Load;
      r := Lowest(MatchByte(Load(lanes), EMPTY));
      if r.None? {
        forall i | 0 <= i < 8
          ensures lanes[i] != EMPTY
        {
          MaskHasLane(0);
        }
      }
    } else {
      for i := 0 to |lanes|
        invariant EMPTY !in lanes[..i]
      {
        if lanes[i] == EMPTY {
          return Some(i);
        }
      }
      assert lanes[..|lanes|] == lanes;
      r := None;
    }
  }

  /** The lowest lane a new entry may be placed in. */
  method LowestFree(lanes: seq<bv8>) returns (r: Option<nat>)
    requires |lanes| == 8 || |lanes| == 16
    ensures r.None? <==> forall i :: 0 <= i < |lanes| ==> IsFull(lanes[i])
    ensures r.Some? ==> r.value < |lanes| && !IsFull(lanes[r.value])
    ensures r.Some? ==> forall i :: 0 <= i < r.value ==> IsFull(lanes[i])
  {
    if |lanes| == 8 {
      forall i | 0 <= i < 8
        ensures Marked(MatchFree(Load(lanes)), i) <==> !IsFull(lanes[i])
      {
        MatchFreeExact(lanes, i);
      }
      MatchFreeExact(lanes, 0);
      hide MatchFree, Load;
      r := Lowest(MatchFree(Load(lanes)));
      if r.None? {
        forall i | 0 <= i < 8
          ensures IsFull(lanes[i])
        {
          MaskHasLane(0);
        }
      }
    } else {
      for i := 0 to |lanes|
        invariant forall j :: 0 <= j < i ==> IsFull(lanes[j])
      {
        if !IsFull(lanes[i]) {
          return Some(i);
        }
      }
      r := None;
    }
  }
}
