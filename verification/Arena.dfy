/** One shard's allocator: the arena's fields, its methods, and what every one of them keeps. */
module ArenaModel {
  import opened Bytes
  import opened ArenaLayout
  import Cursor

  class Arena {
    /** Whether a segment is an anonymous mapping, so that its unwritten part costs nothing. */
    const lazy: bool

    var segments: Segments
    var seg: nat
    var off: nat
    var free: seq<u32>
    var large: seq<seq<byte>>
    var largeFree: seq<u32>
    var live: nat
    var dead: nat
    var largeLive: nat
    var segmentBytes: nat

    /** The live blocks and exactly what they hold. */
    ghost var blocks: Blocks
    /** Which tile each cut byte belongs to. */
    ghost var owner: Owners
    /** Every tile ever cut, live or free, and its length. */
    ghost var tiles: Tiles
    /** What each free list holds, in the order its links visit. */
    ghost var lists: Lists

    ghost function Lay(): Layout
      reads this
    {
      Layout(segments, owner, tiles, free, lists, blocks)
    }

    /** Every live block reads back as its own bytes. */
    ghost predicate Readable()
      reads this
    {
      forall r :: r in blocks ==>
                    if r < LARGE then
                      InSegment(segments, r, |blocks[r]|) && BytesAt(segments, r, |blocks[r]|) == blocks[r]
                    else r - LARGE < |large| && large[r - LARGE] == blocks[r]
    }

    /** The running totals are the sums they stand for. */
    ghost predicate Books()
      reads this
    {
      && live == Charges(blocks)
      && dead == FreeBytes(lists)
      && largeLive == Lengths(large)
      && segmentBytes == Lengths(segments)
    }

    /** No byte of a segment is lost: it is live, dead, or not yet cut. */
    ghost predicate Conserved(cut: nat)
      reads this
    {
      live - largeLive + dead + (LastLength(segments) - cut) == segmentBytes
    }

    /** Everything the arena keeps, with the newest segment cut to `cut` bytes. */
    ghost predicate Kept(cut: nat)
      reads this
    {
      && Sound(Lay(), cut, {})
      && Oversized(large, largeFree, blocks)
      && Books()
      && Conserved(cut)
      && seg == (if |segments| == 0 then 0 else |segments| - 1)
    }

    ghost predicate Valid()
      reads this
    {
      Kept(GRAIN * off)
    }

    lemma KeptIsReadable(cut: nat)
      requires Kept(cut)
      ensures Readable()
    {
    }

    /** An arena holding nothing and owning no memory. */
    constructor (lazy: bool)
      ensures Valid() && Readable() && this.lazy == lazy
      ensures blocks == map[] && live == 0 && segments == [] && segmentBytes == 0
    {
      this.lazy := lazy;
      segments, seg, off := [], 0, 0;
      free, large, largeFree := [], [], [];
      live, dead, largeLive, segmentBytes := 0, 0, 0, 0;
      blocks, owner, tiles, lists := map[], [], map[], [];
    }

    /** Units left uncut in the newest segment. */
    function Room(): (n: nat)
      reads this
    {
      Cursor.Uncut(Cutter())
    }

    /** The uncut tail, `room` units of it, heads the free list of its class. */
    ghost predicate TailIsListed(room: nat)
      reads this
    {
      0 < room <= |free| && free[room - 1] == seg * UNITS + off
    }

    lemma LargeIndexBound()
      requires Valid()
      ensures LargeIndex() <= LARGE && |large| <= LARGE
    {
      hide Sound;
    }

    /** Where the next oversized block goes: the newest hole, or one past the end. */
    function LargeIndex(): (i: nat)
      reads this
    {
      if largeFree != [] then largeFree[|largeFree| - 1] else |large|
    }

    /** The fields a small request reads and moves. */
    function Cutter(): Cursor.Cutter
      reads this
    {
      Cursor.Cutter(segments, seg, off, free, segmentBytes, lazy)
    }

    /** What there is to hand out. */
    function Stock(): Supply
      reads this
    {
      Supply(free, LargeIndex(), |segments|, Room())
    }

    /** Reserve an oversized allocation. The index whose reference is the reserved one is handed out
        like any other, which is the case `Free` then does not give back. */
    method AllocLarge(len: nat) returns (r: Result<u32, Full>)
      requires Valid() && ClassOf(len).None?
      modifies `large, `largeFree, `live, `largeLive, `blocks
      ensures Valid()
      ensures r.Err? <==> old(LargeIndex()) == LARGE
      ensures r.Err? ==> r.error == Full.Large && unchanged(this)
      ensures r.Ok? ==> r.value == LARGE + old(LargeIndex()) && r.value !in old(blocks)
      ensures r.Ok? ==> blocks == old(blocks)[r.value := Zeros(len)]
      ensures r.Ok? ==> (r.value == NONE <==> old(LargeIndex()) == LARGE - 1)
    {
      hide Sound, Lengths, Charges, FreeBytes, ClassOf, Oversized;
      LargeIndexBound();
      var block := Zeros(len);
      var at: u32, table, holes := 0, large, largeFree;
      if largeFree != [] {
        at, holes := largeFree[|largeFree| - 1], largeFree[..|largeFree| - 1];
        FillHole(large, largeFree, blocks, block);
      } else {
        if |large| >= LARGE {
          return Err(Full.Large);
        }
        at, table := |large|, large + [[]];
        AppendLarge(large, blocks, block);
        LengthsAppend(large, []);
        assert table[at := block] == large + [block];
      }
      LengthsUpdate(table, at, block);
      ChargesAdd(blocks, LARGE + at, block);
      LargeKeepsSound(Lay(), GRAIN * off, blocks[LARGE + at := block]);
      live, largeLive := live + len, largeLive + len;
      large, largeFree, blocks := table[at := block], holes, blocks[LARGE + at := block];
      return Ok(LARGE + at);
    }

    /** Thread a loose tile onto its class's free list. */
    method PushFree(at: u32, len: nat, ghost cut: nat)
      requires Sound(Lay(), cut, {at})
      requires tiles[at] == len && len / GRAIN - 1 < |free|
      requires dead == FreeBytes(lists) && segmentBytes == Lengths(segments)
      modifies `segments, `free, `dead, `lists
      ensures Sound(Lay(), cut, {})
      ensures dead == FreeBytes(lists) == old(dead) + len
      ensures segmentBytes == Lengths(segments) && LastLength(segments) == LastLength(old(segments))
      ensures |segments| == |old(segments)|
      ensures |free| == |old(free)| && free == old(free)[len / GRAIN - 1 := at]
      ensures segments == Cursor.Linked(old(segments), at, old(free)[len / GRAIN - 1])
    {
      hide Sound, Lengths, FreeBytes, Splice, SegOf, OffOf;
      var c := len / GRAIN - 1;
      LooseIsShaped(Lay(), cut, at);
      PushSound(Lay(), cut, at, c);
      LengthsUpdate(segments, SegOf(at), Splice(segments[SegOf(at)], OffOf(at), WordBytes(free[c])));
      dead := dead + len;
      segments := Write(segments, at, WordBytes(free[c]));
      free := free[c := at];
      lists := lists[c := [at] + lists[c]];
    }

    /** Take the head of the list of class `c` for a block of `len` bytes. */
    method PopFree(c: nat, len: nat) returns (at: u32)
      requires Valid() && ClassOf(len) == Some(c) && c < |free| && free[c] != NONE
      modifies `free, `dead, `live, `lists, `blocks
      ensures Valid()
      ensures at == old(free)[c] && at < LARGE && at !in old(blocks)
      ensures Cutter() == Cursor.HeadTaken(old(Cutter()), c)
      ensures InSegment(segments, at, len) && blocks == old(blocks)[at := BytesAt(segments, at, len)]
    {
      hide Sound, Charges, FreeBytes, Lengths, Oversized, InSegment, BytesAt, Link;
      at := free[c];
      HeadIsListed(Lay(), GRAIN * off, {}, c);
      PopSound(Lay(), GRAIN * off, c);
      ClaimSound(Pop(Lay(), c), GRAIN * off, at, len);
      LengthOfBytes(segments, at, len);
      ChargesAdd(blocks, at, BytesAt(segments, at, len));
      SmallKeepsOversized(large, largeFree, blocks, at, BytesAt(segments, at, len));
      var next := Link(segments, at);
      free, dead, live := free[c := next], dead - (c + 1) * GRAIN, live + (c + 1) * GRAIN;
      lists, blocks := lists[c := lists[c][1..]], blocks[at := BytesAt(segments, at, len)];
    }

    lemma RoomIsWhatIsLeft()
      requires Valid()
      ensures seg < |segments| ==> GRAIN * off <= |segments[seg]| == GRAIN * (off + Room())
      ensures LastLength(segments) == GRAIN * (off + Room())
      ensures |segments| <= MAX_SEGMENTS && off + Room() <= UNITS
      ensures |segments| == 0 ==> Room() == 0
    {
      hide Tiled, FreeLists, Held, Settled, Reached, Oversized, Books;
    }

    /** Reach the class a request falls in, with an empty list for it. */
    method ReachClass(c: nat)
      requires Valid() && |free| <= c < CLASSES
      modifies `free, `lists
      ensures Valid() && |free| == c + 1 && free[c] == NONE
      ensures Cutter() == Cursor.Reaching(old(Cutter()), c)
    {
      hide Sound, Charges, FreeBytes, Lengths, Oversized;
      SameClasses(Lay(), GRAIN * off, {});
      ReachSound(Lay(), GRAIN * off, c + 1);
      free, lists := free + seq(c + 1 - |free|, _ => NONE), lists + seq(c + 1 - |lists|, _ => []);
    }

    /** Put the newest segment's tail on the free list of whatever class it happens to be. */
    method SealTail()
      requires Valid() && 0 < Room() && Room() <= |free|
      modifies `segments, `free, `dead, `lists, `owner, `tiles
      ensures Kept(LastLength(segments))
      ensures LastLength(segments) == LastLength(old(segments)) && |segments| == |old(segments)|
      ensures |free| == |old(free)| && TailIsListed(old(Room()))
      ensures Cutter() == Cursor.TailListed(old(Cutter()))
    {
      hide Sound, Charges, FreeBytes, Lengths, Oversized, SegOf, OffOf, Settled, Push;
      RoomIsWhatIsLeft();
      SameClasses(Lay(), GRAIN * off, {});
      var at, len := Make(seg, off), Room() * GRAIN;
      CutSound(Lay(), GRAIN * off, at, len);
      owner, tiles := Extend(owner, SegOf(at), at, len), tiles[at := len];
      PushFree(at, len, GRAIN * off + len);
    }

    /** Append a segment, of which nothing is cut. */
    method AppendSegment()
      requires Kept(LastLength(segments)) && |segments| < MAX_SEGMENTS
      modifies `segments, `seg, `off, `segmentBytes, `owner
      ensures Valid() && off == 0 && seg < |segments| && Room() * GRAIN >= SMALL_MAX
      ensures Cutter() == Cursor.Grown(old(Cutter()))
    {
      hide Sound, Charges, FreeBytes, Lengths, Oversized, NextSegmentSize, Zeros, Fits, Shapes;
      SegmentIsUsable(lazy, segmentBytes);
      var segment := Zeros(NextSegmentSize(lazy, segmentBytes));
      GrowSound(Lay(), segment);
      LengthsAppend(segments, segment);
      segmentBytes := segmentBytes + |segment|;
      seg, off := |segments|, 0;
      segments, owner := segments + [segment], owner + [[]];
    }

    /** Add a segment and cut from it. `granted` is whether the operating system gives one. */
    method AddSegment(granted: bool) returns (r: Result<(), Full>)
      requires Kept(LastLength(segments))
      modifies `segments, `seg, `off, `segmentBytes, `owner
      ensures r.Err? ==> Kept(LastLength(segments))
      ensures r.Err? ==> unchanged(this)
      ensures r.Err? ==> r == Err(Slab) || r == Err(Memory)
      ensures r == Err(Slab) <==> |old(segments)| == MAX_SEGMENTS
      ensures r == Err(Memory) <==> |old(segments)| < MAX_SEGMENTS && !granted
      ensures r.Ok? ==> Valid() && off == 0 && seg < |segments| && Room() * GRAIN >= SMALL_MAX
      ensures r.Ok? ==> Cutter() == Cursor.Grown(old(Cutter()))
    {
      hide Sound, Charges, FreeBytes, Lengths, Oversized, Cursor.Grown;
      AtMostSegments(Lay(), LastLength(segments), {});
      if |segments| >= MAX_SEGMENTS {
        return Err(Slab);
      }
      if !granted {
        return Err(Memory);
      }
      AppendSegment();
      return Ok(());
    }

    /** Cut a block of `len` bytes from the newest segment, which has room for it. */
    method CutBlock(c: nat, len: nat) returns (at: u32)
      requires Valid() && ClassOf(len) == Some(c) && c < |free| && c < Room()
      modifies `off, `live, `blocks, `owner, `tiles
      ensures Valid()
      ensures at == Cursor.Tail(old(Cutter())) == seg * UNITS + old(off) && at < LARGE && at !in old(blocks)
      ensures Cutter() == Cursor.Advanced(old(Cutter()), c)
      ensures InSegment(segments, at, len) && blocks == old(blocks)[at := BytesAt(segments, at, len)]
    {
      hide Sound, Charges, FreeBytes, Lengths, Oversized, InSegment, BytesAt, Extend, Settled, SegOf, OffOf;
      RoomIsWhatIsLeft();
      SameClasses(Lay(), GRAIN * off, {});
      at := Make(seg, off);
      var rounded := (c + 1) * GRAIN;
      CutSound(Lay(), GRAIN * off, at, rounded);
      ClaimSound(Cut(Lay(), at, rounded), GRAIN * off + rounded, at, len);
      LengthOfBytes(segments, at, len);
      ChargesAdd(blocks, at, BytesAt(segments, at, len));
      SmallKeepsOversized(large, largeFree, blocks, at, BytesAt(segments, at, len));
      off, live := off + (c + 1), live + rounded;
      owner, tiles, blocks := Extend(owner, SegOf(at), at, rounded), tiles[at := rounded],
        blocks[at := BytesAt(segments, at, len)];
    }

    /** An arena whose tail is listed without being cut is not in order. */
    lemma ListedTailBreaks()
      requires Kept(LastLength(segments)) && GRAIN * off < LastLength(segments)
      ensures !Valid()
    {
      hide Tiled, FreeLists, Held, Settled, Reached, Oversized, Books;
    }

    /** Reserve `len` bytes. A live block is never disturbed. A refusal changes no block either, and the
        arena keeps everything it kept unless a tail had already been listed when the refusal came:
        that tail is then both free and still to be cut. */
    method Alloc(len: nat, granted: bool) returns (r: Result<u32, Full>)
      requires Valid()
      modifies this
      ensures Readable()
      ensures r.Ok? ==>
                && r.value !in old(blocks)
                && r.value in blocks && |blocks[r.value]| == len
                && blocks == old(blocks)[r.value := blocks[r.value]]
      ensures r.Ok? ==> (r.value < LARGE <==> ClassOf(len).Some?)
      ensures r.Err? ==> blocks == old(blocks)
      ensures r.Err? <==> Denies(old(Stock()), len, granted)
      ensures r.Err? ==> Denies(Stock(), len, granted) && Room() == old(Room())
      ensures ClassOf(len).None? && r.Ok? ==> r.value == LARGE + old(LargeIndex())
      ensures r.Ok? ==> (r.value == NONE <==> ClassOf(len).None? && old(LargeIndex()) == LARGE - 1)
      ensures ClassOf(len).Some? ==> (Cutter(), r) == Cursor.Served(old(Cutter()), ClassOf(len).value, granted)
      ensures ClassOf(len).None? && r.Err? ==> r.error == Full.Large
      ensures Valid() <==> r.Ok? || ClassOf(len).None? || old(Room()) == 0
      ensures !Valid() ==> Kept(LastLength(segments)) && TailIsListed(old(Room()))
    {
      hide Sound, Charges, FreeBytes, Lengths, Oversized, InSegment, BytesAt, Books, Conserved, Cursor.Served;
      if ClassOf(len).None? {
        r := AllocLarge(len);
        KeptIsReadable(GRAIN * off);
      } else {
        r := AllocSmall(ClassOf(len).value, len, granted);
        if r.Err? {
          KeptIsReadable(LastLength(segments));
        } else {
          KeptIsReadable(GRAIN * off);
        }
      }
    }

    /** A block of the slab: a freed one of its class first, then one cut, then one cut from another segment. */
    method AllocSmall(c: nat, len: nat, granted: bool) returns (r: Result<u32, Full>)
      requires Valid() && ClassOf(len) == Some(c)
      modifies this
      ensures (Cutter(), r) == Cursor.Served(old(Cutter()), c, granted)
      ensures r.Ok? ==>
                && Valid() && r.value < LARGE && r.value !in old(blocks)
                && r.value in blocks && |blocks[r.value]| == len
                && blocks == old(blocks)[r.value := blocks[r.value]]
      ensures r.Err? <==> Denies(old(Stock()), len, granted)
      ensures r.Err? ==> Denies(Stock(), len, granted) && Room() == old(Room())
      ensures r.Err? ==> blocks == old(blocks) && Kept(LastLength(segments))
      ensures r.Err? ==> (Valid() <==> old(Room()) == 0) && (old(Room()) > 0 ==> TailIsListed(old(Room())))
    {
      hide Sound, Charges, FreeBytes, Lengths, Oversized, InSegment, BytesAt, Books, Conserved, Settled, Make, SegOf,
        OffOf,
        Cursor.TailListed, Cursor.HeadTaken, Cursor.Grown, Cursor.Advanced, Cursor.Tail, Kept;
      RoomIsWhatIsLeft();
      if c >= |free| {
        ReachClass(c);
      }
      if free[c] != NONE {
        var at := PopFree(c, len);
        LengthOfBytes(segments, at, len);
        return Ok(at);
      }
      if Room() < c + 1 {
        if Room() > 0 {
          Cursor.ListingLeavesTheRest(Cutter());
        }
        r := NextSegment(c, granted);
        if r.Err? {
          return;
        }
      }
      var at := CutBlock(c, len);
      LengthOfBytes(segments, at, len);
      return Ok(at);
    }

    /** Abandon what is left of the newest segment to the free lists and start another. */
    method NextSegment(c: nat, granted: bool) returns (r: Result<u32, Full>)
      requires Valid() && Room() <= c < |free|
      modifies this
      ensures blocks == old(blocks) && |free| == |old(free)|
      ensures r.Ok? ==> Valid() && c < Room()
      ensures r.Err? ==> Kept(LastLength(segments))
      ensures r.Err? <==> |old(segments)| == MAX_SEGMENTS || !granted
      ensures r.Err? ==> (Valid() <==> old(Room()) == 0)
      ensures r.Err? && old(Room()) > 0 ==> TailIsListed(old(Room()))
      ensures
        var sealed := if old(Room()) > 0 then Cursor.TailListed(old(Cutter())) else old(Cutter());
        && (r.Ok? ==> Cutter() == Cursor.Grown(sealed))
        && (r.Err? ==>
            Cutter() == sealed && r.error == if |old(segments)| == MAX_SEGMENTS then Full.Slab else Full.Memory)
    {
      hide Sound, Charges, FreeBytes, Lengths, Oversized, SegOf, OffOf, Settled, Books, Conserved;
      RoomIsWhatIsLeft();
      SameClasses(Lay(), GRAIN * off, {});
      if Room() > 0 {
        SealTail();
      }
      var grown := AddSegment(granted);
      if grown.Err? {
        if GRAIN * off < LastLength(segments) {
          ListedTailBreaks();
        }
        return Err(grown.error);
      }
      return Ok(0);
    }

    /** Give an oversized block back: its index becomes a hole. */
    method FreeLarge(at: u32)
      requires Valid() && at in blocks && at >= LARGE
      modifies `large, `largeFree, `live, `largeLive, `blocks
      ensures Valid()
      ensures blocks == old(blocks) - {at}
      ensures live == old(live) - |old(blocks)[at]|
      ensures LargeIndex() == at - LARGE
    {
      hide Sound, Lengths, Charges, FreeBytes, Oversized, ClassOf;
      DigHole(large, largeFree, blocks, at);
      var index := at - LARGE;
      var held := |large[index]|;
      LengthsUpdate(large, index, []);
      ChargesRemove(blocks, at);
      LargeKeepsSound(Lay(), GRAIN * off, blocks - {at});
      live, largeLive := live - held, largeLive - held;
      large, largeFree, blocks := large[index := []], largeFree + [index], blocks - {at};
    }

    /** Give a slab block back: it heads its class's free list. */
    method FreeSmall(at: u32, len: nat)
      requires Valid() && at in blocks && at < LARGE && len == |blocks[at]|
      requires ClassOf(len).Some?
      modifies `segments, `free, `live, `dead, `lists, `blocks
      ensures Valid()
      ensures blocks == old(blocks) - {at}
      ensures live == old(live) - Charge(len)
      ensures ClassOf(len).value < |old(free)| && free == old(free)[ClassOf(len).value := at]
      ensures |segments| == |old(segments)| && Room() == old(Room())
    {
      hide Sound, Lengths, Charges, FreeBytes, Oversized, Settled, Push;
      RoomIsWhatIsLeft();
      var rounded := (ClassOf(len).value + 1) * GRAIN;
      ReleaseSound(Lay(), GRAIN * off, at);
      ChargesRemove(blocks, at);
      SmallKeepsOversized(large, largeFree, blocks, at, []);
      live, blocks := live - rounded, blocks - {at};
      LooseIsShaped(Lay(), GRAIN * off, at);
      PushFree(at, rounded, GRAIN * off);
      RoomIsWhatIsLeft();
    }

    /** The class of a live block's length says which of the two spaces its reference is in. */
    lemma ClassSaysWhich(at: u32)
      requires Valid() && at in blocks
      ensures at < LARGE <==> ClassOf(|blocks[at]|).Some?
    {
      hide Tiled, FreeLists, Settled, Reached, Shapes, CutTo, Books;
    }

    /** Give `at`, which must have been `len` bytes from `Alloc` on this arena, back. The reserved
        reference is not looked at, so a block that was handed out under it stays live. */
    method Free(at: u32, len: nat)
      requires Valid()
      requires at == NONE || (at in blocks && len == |blocks[at]|)
      modifies this
      ensures Valid() && Readable()
      ensures at != NONE ==> blocks == old(blocks) - {at} && live == old(live) - Charge(len)
      ensures at == NONE ==> unchanged(this)
      ensures Stock() == Returned(old(Stock()), at, len)
    {
      hide Sound, Lengths, Charges, FreeBytes, Oversized, Settled, Books, Conserved;
      if at == NONE {
        KeptIsReadable(GRAIN * off);
        return;
      }
      ClassSaysWhich(at);
      if ClassOf(len).None? {
        FreeLarge(at);
      } else {
        FreeSmall(at, len);
      }
      KeptIsReadable(GRAIN * off);
    }

    /** The bytes behind a live reference. */
    function Get(at: u32, len: nat): (b: seq<byte>)
      requires Readable() && at in blocks && len == |blocks[at]|
      reads this
      ensures b == blocks[at]
    {
      if at >= LARGE then large[at - LARGE] else BytesAt(segments, at, len)
    }

    /** Up to `len` bytes behind a live reference, however many of them there are: the block's own
        bytes first, and past its end whatever the segment happens to hold there. */
    function Peek(at: u32, len: nat): (b: seq<byte>)
      requires Readable() && at in blocks
      reads this
      ensures |b| <= len
      ensures len <= |blocks[at]| ==> b == blocks[at][..len]
      ensures len > |blocks[at]| ==> blocks[at] <= b
    {
      if at >= LARGE then
        var block := large[at - LARGE];
        if len <= |block| then block[..len] else block
      else
        var segment := segments[SegOf(at)];
        var end := if OffOf(at) + len <= |segment| then OffOf(at) + len else |segment|;
        assert blocks[at] == segment[OffOf(at)..OffOf(at) + |blocks[at]|];
        segment[OffOf(at)..end]
    }

    /** Write the whole of a live block, through the slice `get_mut` hands out. */
    method Put(at: u32, bytes: seq<byte>)
      requires Valid() && at in blocks && |bytes| == |blocks[at]|
      modifies `segments, `large, `blocks
      ensures Valid() && Readable()
      ensures blocks == old(blocks)[at := bytes] && Stock() == old(Stock())
    {
      hide Sound, Lengths, Charges, FreeBytes, Splice, SegOf, OffOf;
      ChargesWrite(blocks, at, bytes);
      if at >= LARGE {
        WriteLarge(large, largeFree, blocks, at, bytes);
        LengthsUpdate(large, at - LARGE, bytes);
        LargeKeepsSound(Lay(), GRAIN * off, blocks[at := bytes]);
        large, blocks := large[at - LARGE := bytes], blocks[at := bytes];
      } else {
        WriteSound(Lay(), GRAIN * off, at, bytes);
        SmallKeepsOversized(large, largeFree, blocks, at, bytes);
        LengthsUpdate(segments, SegOf(at), Splice(segments[SegOf(at)], OffOf(at), bytes));
        segments, blocks := Write(segments, at, bytes), blocks[at := bytes];
      }
      KeptIsReadable(GRAIN * off);
    }

    /** Bytes of segment being charged for: all of it, less, where the reserve is free, the whole
        granules of the newest segment nothing has been written into. */
    function HeldBytes(granule: nat): (n: int)
      requires 0 < granule
      reads this
    {
      if !lazy then segmentBytes
      else if |segments| == 0 then 0
      else
        var last := |segments[|segments| - 1]|;
        var written := (GRAIN * off + granule - 1) / granule * granule;
        segmentBytes - last + (if written < last then written else last)
    }

    /** `tables` stands for what the arena's own lists cost. */
    function ResidentBytes(granule: nat, tables: nat): (n: int)
      requires 0 < granule
      reads this
    {
      HeldBytes(granule) + largeLive + tables
    }

    /** Where the reserve is free, the newest segment is charged for the fewest whole granules that hold what has been
        cut from it, or for all of it; the others are charged whole. */
    lemma HeldToTheGranule(granule: nat)
      requires Valid() && 0 < granule
      ensures !lazy ==> HeldBytes(granule) == segmentBytes
      ensures lazy && |segments| == 0 ==> HeldBytes(granule) == 0
      ensures lazy && |segments| > 0 ==>
        var last := |segments[|segments| - 1]|;
        var charged := HeldBytes(granule) - (segmentBytes - last);
        && GRAIN * off <= charged <= last && charged < GRAIN * off + granule
        && (charged == last || exists q: nat :: charged == Granules(q, granule))
    {
      hide Sound, Charges, Lengths, FreeBytes, Oversized;
      RoomIsWhatIsLeft();
      RoundUp(GRAIN * off, granule);
      var q := (GRAIN * off + granule - 1) / granule;
      assert q * granule == Granules(q, granule);
    }

    function MappedBytes(tables: nat): (n: nat)
      reads this
    {
      segmentBytes + largeLive + tables
    }

    /** What has been handed out is covered by what is charged for, which is within what is mapped,
        and what is charged is the live blocks' own rounded or exact sizes. */
    lemma LiveIsCovered(granule: nat, tables: nat)
      requires Valid() && 0 < granule
      ensures live == Charges(Below(blocks, LARGE)) + largeLive
      ensures live - largeLive + dead <= HeldBytes(granule) <= segmentBytes
      ensures live <= ResidentBytes(granule, tables) <= MappedBytes(tables)
    {
      ChargesSplit(large, largeFree, blocks);
      RoomIsWhatIsLeft();
      RoundUp(GRAIN * off, granule);
      LastIsCounted(segments);
      hide Sound, Charges, Lengths, FreeBytes, Oversized;
    }
  }

  /** The bytes of `q` granules. */
  function Granules(q: nat, granule: nat): nat { q * granule }

  lemma RoundUp(n: nat, granule: nat)
    requires 0 < granule
    ensures n <= (n + granule - 1) / granule * granule < n + granule
  {
    var q := (n + granule - 1) / granule;
    assert n + granule - 1 == granule * q + (n + granule - 1) % granule;
  }

  lemma LastIsCounted(segs: Segments)
    ensures LastLength(segs) <= Lengths(segs)
  {
  }
}
