/** The per-shard slab allocator: segments cut into tiles, free lists threaded through the freed bytes
    themselves, and oversized blocks held apart. */
module ArenaLayout {
  import opened Bytes

  const GRAIN := 4
  const SMALL_MAX := 2048
  const CLASSES := 512
  /** Units one reference's offset field can name: 2^21. */
  const UNITS := 0x20_0000
  const MAX_SEGMENTS := 1024
  /** The top bit of a reference. */
  const LARGE := 0x8000_0000
  const NONE: u32 := 0xFFFF_FFFF

  datatype Full = Slab | Large | Memory

  // ---------------------------------------------------------------------------------------------
  // References
  // ---------------------------------------------------------------------------------------------

  function SegOf(at: u32): (s: nat)
  {
    at / UNITS
  }

  function OffOf(at: u32): (o: nat)
  {
    at % UNITS * GRAIN
  }

  /** Ten bits of segment over twenty-one bits of unit offset, the top bit clear. */
  function Make(seg: nat, off: nat): (at: u32)
    requires seg < MAX_SEGMENTS && off < UNITS
    ensures at < LARGE
    ensures SegOf(at) == seg && OffOf(at) == GRAIN * off
  {
    seg * UNITS + off
  }

  /** The size class of `len` bytes, or nothing when the request is oversized. */
  function ClassOf(len: nat): (c: Option<nat>)
    ensures c.Some? <==> 0 < len <= SMALL_MAX
    ensures c.Some? ==> c.value < CLASSES && len <= (c.value + 1) * GRAIN < len + GRAIN
  {
    if len == 0 || len > SMALL_MAX then None else Some((len + GRAIN - 1) / GRAIN - 1)
  }

  /** What a block of `len` bytes is charged: its whole class in the slab, its exact length outside it. */
  function Charge(len: nat): (c: nat)
    ensures len <= c < len + GRAIN
  {
    match ClassOf(len)
    case Some(cls) => (cls + 1) * GRAIN
    case None => len
  }

  // ---------------------------------------------------------------------------------------------
  // What there is to hand out
  // ---------------------------------------------------------------------------------------------

  /** What decides whether a request can be met: the free lists' heads, where the next oversized block would
      go, how many segments there are, and how many units of the newest are uncut. */
  datatype Supply = Supply(free: seq<u32>, largeIndex: nat, segments: nat, room: nat)

  /** A request that is refused: an oversized one with no index left, or a small one that nothing freed can
      serve, the newest segment has no room for, and no further segment can be had for. */
  predicate Denies(s: Supply, len: nat, granted: bool)
  {
    match ClassOf(len)
    case None => s.largeIndex == LARGE
    case Some(c) => (c >= |s.free| || s.free[c] == NONE) && s.room <= c && (s.segments == MAX_SEGMENTS || !granted)
  }

  /** What there is once a block has been given back: it heads its list, or its index is the newest hole. */
  function Returned(s: Supply, at: u32, len: nat): Supply
  {
    if at == NONE then s
    else
      match ClassOf(len)
      case None => if at >= LARGE then s.(largeIndex := at - LARGE) else s
      case Some(c) => if c < |s.free| then s.(free := s.free[c := at]) else s
  }

  /** Giving a block back lets exactly the requests of its own kind through: its class, or any oversized one. */
  lemma ReturnedServesItsOwn(s: Supply, at: u32, len: nat, want: nat, granted: bool)
    requires at != NONE && (at < LARGE <==> ClassOf(len).Some?)
        && (ClassOf(len).Some? ==> ClassOf(len).value < |s.free|)
    ensures Denies(Returned(s, at, len), want, granted) <==> Denies(s, want, granted) && ClassOf(want) != ClassOf(len)
  {
  }

  // ---------------------------------------------------------------------------------------------
  // How large the next segment is
  // ---------------------------------------------------------------------------------------------

  function MinSegment(lazy: bool): nat { if lazy then 0x10_0000 else 0x1000 }

  function MaxSegment(lazy: bool): nat { if lazy then 0x80_0000 else 0x20_0000 }

  /** One growth-th of what is held: all of it where the reserve is free, a sixteenth where it is not. */
  function Share(lazy: bool, held: nat): nat { if lazy then held else held / 16 }

  /** How many whole minimum segments cover `share`, at least one. */
  function Whole(lazy: bool, share: nat): (n: nat)
    requires share < MaxSegment(lazy)
    ensures 1 <= n <= (if lazy then 8 else 512)
    ensures n == 1 || MinSegment(lazy) * (n - 1) < share <= MinSegment(lazy) * n
  {
    if lazy then (if share == 0 then 1 else (share - 1) / 0x10_0000 + 1)
    else (if share == 0 then 1 else (share - 1) / 0x1000 + 1)
  }

  /** A share of what is held, rounded up to a whole minimum segment and held between the two bounds,
      so every segment is addressable by a unit offset and takes any slab request. */
  function NextSegmentSize(lazy: bool, held: nat): (size: nat)
    ensures MinSegment(lazy) <= size <= MaxSegment(lazy)
    ensures 2 * SMALL_MAX <= size <= UNITS * GRAIN && size % GRAIN == 0
  {
    var share := Share(lazy, held);
    if share >= MaxSegment(lazy) then MaxSegment(lazy)
    else if lazy then 0x10_0000 * Whole(lazy, share)
    else 0x1000 * Whole(lazy, share)
  }

  lemma SegmentIsUsable(lazy: bool, held: nat)
    ensures var size := NextSegmentSize(lazy, held);
            && |Zeros(size)| == size && MinSegment(lazy) <= size <= MaxSegment(lazy)
            && 2 * SMALL_MAX <= size <= UNITS * GRAIN && size % GRAIN == 0
  {
    hide Share, Whole;
  }

  /** The size is the least whole number of minimum segments that covers the share, up to the ceiling. */
  lemma SegmentCoversShare(lazy: bool, held: nat)
    ensures var size, share := NextSegmentSize(lazy, held), Share(lazy, held);
            && (size == MinSegment(lazy) || size - MinSegment(lazy) < share)
            && (share <= size || size == MaxSegment(lazy))
  {
    var share := Share(lazy, held);
    hide Share, NextSegmentSize, Whole;
    if share < MaxSegment(lazy) {
      SizeIs(lazy, held);
      CoversIs(lazy, share);
    } else {
      CeilingIs(lazy, held);
    }
  }

  lemma SizeIs(lazy: bool, held: nat)
    requires Share(lazy, held) < MaxSegment(lazy)
    ensures NextSegmentSize(lazy, held) == MinSegment(lazy) * Whole(lazy, Share(lazy, held))
  {
    hide Whole;
  }

  lemma CoversIs(lazy: bool, share: nat)
    requires share < MaxSegment(lazy)
    ensures Whole(lazy, share) == 1 || MinSegment(lazy) * (Whole(lazy, share) - 1) < share
    ensures share <= MinSegment(lazy) * Whole(lazy, share)
  {
  }

  lemma CeilingIs(lazy: bool, held: nat)
    requires Share(lazy, held) >= MaxSegment(lazy)
    ensures NextSegmentSize(lazy, held) == MaxSegment(lazy)
  {
  }

  // ---------------------------------------------------------------------------------------------
  // Tiles: every byte ever cut belongs to exactly one
  // ---------------------------------------------------------------------------------------------

  type Owners = seq<seq<u32>>
  type Tiles = map<u32, nat>
  type Segments = seq<seq<byte>>

  ghost predicate Owns(owner: Owners, at: u32, len: nat)
  {
    && SegOf(at) < |owner|
    && OffOf(at) + len <= |owner[SegOf(at)]|
    && forall b :: OffOf(at) <= b < OffOf(at) + len ==> owner[SegOf(at)][b] == at
  }

  ghost predicate Covers(tiles: Tiles, at: u32, s: nat, b: nat)
  {
    at in tiles && SegOf(at) == s && OffOf(at) <= b < OffOf(at) + tiles[at]
  }

  ghost predicate TileShape(at: u32, len: nat)
  {
    at < LARGE && 0 < len <= SMALL_MAX && len % GRAIN == 0
  }

  /** The cut part of every segment is partitioned into tiles. */
  ghost predicate Tiled(owner: Owners, tiles: Tiles)
  {
    && (forall r :: r in tiles ==> TileShape(r, tiles[r]) && Owns(owner, r, tiles[r]))
    && (forall s, b :: 0 <= s < |owner| && 0 <= b < |owner[s]| ==> Covers(tiles, owner[s][b], s, b))
  }

  ghost function Extend(owner: Owners, s: nat, at: u32, len: nat): Owners
    requires s < |owner|
  {
    owner[s := owner[s] + seq(len, _ => at)]
  }

  /** Cutting a fresh tile off the end of a segment keeps the tiling. */
  lemma ExtendTiles(owner: Owners, tiles: Tiles, s: nat, at: u32, len: nat)
    requires Tiled(owner, tiles)
    requires s < |owner| && SegOf(at) == s && OffOf(at) == |owner[s]|
    requires TileShape(at, len)
    ensures at !in tiles
    ensures Tiled(Extend(owner, s, at, len), tiles[at := len])
  {
    var owner' := Extend(owner, s, at, len);
    var tiles' := tiles[at := len];
    forall r | r in tiles'
      ensures TileShape(r, tiles'[r]) && Owns(owner', r, tiles'[r])
    {
      if r != at {
        assert Owns(owner, r, tiles[r]);
      }
    }
    forall t, b | 0 <= t < |owner'| && 0 <= b < |owner'[t]|
      ensures Covers(tiles', owner'[t][b], t, b)
    {
      if t == s && b >= |owner[s]| {
        assert owner'[t][b] == at;
      } else {
        assert owner'[t][b] == owner[t][b];
        assert Covers(tiles, owner[t][b], t, b);
      }
    }
  }

  /** A new segment starts with nothing cut from it. */
  lemma AppendSegmentTiles(owner: Owners, tiles: Tiles)
    requires Tiled(owner, tiles)
    ensures Tiled(owner + [[]], tiles)
  {
    var owner' := owner + [[]];
    forall r | r in tiles
      ensures Owns(owner', r, tiles[r])
    {
      assert Owns(owner, r, tiles[r]);
    }
    forall t, b | 0 <= t < |owner'| && 0 <= b < |owner'[t]|
      ensures Covers(tiles, owner'[t][b], t, b)
    {
      assert Covers(tiles, owner[t][b], t, b);
    }
  }

  // ---------------------------------------------------------------------------------------------
  // Bytes under a reference
  // ---------------------------------------------------------------------------------------------

  ghost predicate InSegment(segs: Segments, at: u32, len: nat)
  {
    SegOf(at) < |segs| && OffOf(at) + len <= |segs[SegOf(at)]|
  }

  function BytesAt(segs: Segments, at: u32, len: nat): (b: seq<byte>)
    requires InSegment(segs, at, len)
    ensures |b| == len
  {
    segs[SegOf(at)][OffOf(at)..OffOf(at) + len]
  }

  function Link(segs: Segments, at: u32): (next: u32)
    requires InSegment(segs, at, GRAIN)
  {
    Word(segs[SegOf(at)], OffOf(at))
  }

  function Write(segs: Segments, at: u32, bytes: seq<byte>): (r: Segments)
    requires InSegment(segs, at, |bytes|)
    ensures |r| == |segs|
    ensures forall s :: 0 <= s < |segs| ==> |r[s]| == |segs[s]|
    ensures InSegment(r, at, |bytes|) && BytesAt(r, at, |bytes|) == bytes
  {
    segs[SegOf(at) := Splice(segs[SegOf(at)], OffOf(at), bytes)]
  }

  /** The cut part of the segments is what the owners describe. */
  ghost predicate Fits(segs: Segments, owner: Owners)
  {
    && |owner| == |segs|
    && forall s :: 0 <= s < |segs| ==> |owner[s]| <= |segs[s]|
  }

  /** Writing inside one tile leaves every other tile's bytes, and so its link, as they were. */
  lemma WriteElsewhere(segs: Segments, owner: Owners, tiles: Tiles, at: u32, bytes: seq<byte>, other: u32, len: nat)
    requires Tiled(owner, tiles) && Fits(segs, owner)
    requires at in tiles && |bytes| <= tiles[at]
    requires other in tiles && len <= tiles[other] && other != at
    ensures InSegment(segs, at, |bytes|) && InSegment(segs, other, len)
    ensures InSegment(Write(segs, at, bytes), other, len)
    ensures BytesAt(Write(segs, at, bytes), other, len) == BytesAt(segs, other, len)
    ensures len >= GRAIN ==> Link(Write(segs, at, bytes), other) == Link(segs, other)
  {
    assert Owns(owner, at, tiles[at]) && Owns(owner, other, tiles[other]);
    var s, o := SegOf(other), OffOf(other);
    var segs' := Write(segs, at, bytes);
    forall b | o <= b < o + len
      ensures segs'[s][b] == segs[s][b]
    {
      assert owner[s][b] == other;
    }
  }

  // ---------------------------------------------------------------------------------------------
  // Free lists
  // ---------------------------------------------------------------------------------------------

  type Lists = seq<seq<u32>>

  function First(list: seq<u32>): u32 { if list == [] then NONE else list[0] }

  /** `list` is what following links from `head` visits, ending at the reserved reference. */
  ghost predicate Chained(segs: Segments, head: u32, list: seq<u32>)
  {
    && head == First(list)
    && forall j :: 0 <= j < |list| ==>
                     InSegment(segs, list[j], GRAIN) && Link(segs, list[j]) == First(list[j + 1..])
  }

  /** Every listed block is a tile of that list's class, once. */
  ghost predicate Listed(tiles: Tiles, cls: nat, list: seq<u32>)
  {
    && Distinct(list)
    && forall j :: 0 <= j < |list| ==> list[j] in tiles && tiles[list[j]] == (cls + 1) * GRAIN
  }

  ghost predicate FreeLists(segs: Segments, tiles: Tiles, free: seq<u32>, lists: Lists)
  {
    && |free| == |lists| <= CLASSES
    && forall c :: 0 <= c < |lists| ==> Chained(segs, free[c], lists[c]) && Listed(tiles, c, lists[c])
  }

  ghost predicate OnList(tiles: Tiles, lists: Lists, at: u32)
    requires at in tiles
  {
    var c := tiles[at] / GRAIN - 1;
    0 <= c < |lists| && at in lists[c]
  }

  /** Bytes on the free lists. */
  ghost function FreeBytes(lists: Lists): (n: nat)
  {
    if lists == [] then 0
    else FreeBytes(lists[..|lists| - 1]) + |lists| * GRAIN * |lists[|lists| - 1]|
  }

  lemma {:induction false} FreeBytesUpdate(lists: Lists, c: nat, list: seq<u32>)
    requires c < |lists|
    ensures FreeBytes(lists[c := list]) == FreeBytes(lists) + (c + 1) * GRAIN * |list| - (c + 1) * GRAIN * |lists[c]|
  {
    var n := |lists| - 1;
    if c == n {
      assert lists[c := list][..n] == lists[..n];
    } else {
      assert lists[c := list][..n] == lists[..n][c := list];
      FreeBytesUpdate(lists[..n], c, list);
    }
  }

  lemma TimesSucc(a: nat, n: nat)
    ensures a * (n + 1) == a * n + a
  {
  }

  /** Pushing or popping one block moves the total by exactly that block's length. */
  lemma FreeBytesStep(lists: Lists, c: nat, shorter: seq<u32>, longer: seq<u32>)
    requires c < |lists| && |longer| == |shorter| + 1
    ensures lists[c] == shorter ==> FreeBytes(lists[c := longer]) == FreeBytes(lists) + (c + 1) * GRAIN
    ensures lists[c] == longer ==> FreeBytes(lists[c := shorter]) + (c + 1) * GRAIN == FreeBytes(lists)
  {
    TimesSucc((c + 1) * GRAIN, |shorter|);
    FreeBytesUpdate(lists, c, longer);
    FreeBytesUpdate(lists, c, shorter);
  }

  lemma {:induction false} FreeBytesGrow(lists: Lists, n: nat)
    ensures FreeBytes(lists + seq(n, _ => [])) == FreeBytes(lists)
  {
    var more: Lists := lists + seq(n, _ => []);
    if n == 0 {
      assert more == lists;
    } else {
      assert more[..|more| - 1] == lists + seq(n - 1, _ => []);
      FreeBytesGrow(lists, n - 1);
    }
  }

  // ---------------------------------------------------------------------------------------------
  // Totals
  // ---------------------------------------------------------------------------------------------

  /** A fresh block: a segment or an oversized block starts out zeroed. */
  function Zeros(len: nat): (s: seq<byte>)
    ensures |s| == len
  {
    seq(len, _ => 0)
  }

  ghost function Lengths(s: seq<seq<byte>>): (n: nat)
  {
    if s == [] then 0 else Lengths(s[..|s| - 1]) + |s[|s| - 1]|
  }

  lemma {:induction false} LengthsUpdate(s: seq<seq<byte>>, i: nat, x: seq<byte>)
    requires i < |s|
    ensures Lengths(s[i := x]) == Lengths(s) + |x| - |s[i]|
    ensures |s[i]| <= Lengths(s)
  {
    var n := |s| - 1;
    if i == n {
      assert s[i := x][..n] == s[..n];
    } else {
      assert s[i := x][..n] == s[..n][i := x];
      LengthsUpdate(s[..n], i, x);
    }
  }

  lemma LengthsAppend(s: seq<seq<byte>>, x: seq<byte>)
    ensures Lengths(s + [x]) == Lengths(s) + |x|
  {
    assert (s + [x])[..|s|] == s;
  }

  type Blocks = map<u32, seq<byte>>

  /** What all live blocks together are charged. */
  ghost function Charges(blocks: Blocks): (n: nat)
    decreases |blocks|
  {
    if blocks == map[] then 0
    else
      var r :| r in blocks;
      Charge(|blocks[r]|) + Charges(blocks - {r})
  }

  lemma {:induction false} ChargesRemove(blocks: Blocks, at: u32)
    requires at in blocks
    ensures Charges(blocks) == Charge(|blocks[at]|) + Charges(blocks - {at})
    decreases |blocks|
  {
    var r :| r in blocks && Charges(blocks) == Charge(|blocks[r]|) + Charges(blocks - {r});
    if r != at {
      assert at in blocks - {r};
      ChargesRemove(blocks - {r}, at);
      assert r in blocks - {at};
      ChargesRemove(blocks - {at}, r);
      assert blocks - {r} - {at} == blocks - {at} - {r};
    }
  }

  lemma ChargesAdd(blocks: Blocks, at: u32, bytes: seq<byte>)
    requires at !in blocks
    ensures Charges(blocks[at := bytes]) == Charges(blocks) + Charge(|bytes|)
  {
    ChargesRemove(blocks[at := bytes], at);
    assert blocks[at := bytes] - {at} == blocks;
  }

  // ---------------------------------------------------------------------------------------------
  // What holds between the tiles, the free lists and the live blocks
  // ---------------------------------------------------------------------------------------------

  /** Every live slab block is a whole tile of its class holding the block's bytes. */
  ghost predicate Held(segs: Segments, tiles: Tiles, blocks: Blocks)
  {
    forall r :: r in blocks && r < LARGE ==>
                  && r in tiles
                  && ClassOf(|blocks[r]|).Some? && tiles[r] == Charge(|blocks[r]|)
                  && InSegment(segs, r, |blocks[r]|) && BytesAt(segs, r, |blocks[r]|) == blocks[r]
  }

  /** Every tile is live, or on its class's free list, or one of `loose`: exactly one of the three. */
  ghost predicate Settled(tiles: Tiles, blocks: Blocks, lists: Lists, loose: set<u32>)
  {
    && loose <= tiles.Keys
    && forall r :: r in tiles ==>
                  && (r in blocks || OnList(tiles, lists, r) || r in loose)
                  && !(r in blocks && OnList(tiles, lists, r))
                  && !(r in loose && (r in blocks || OnList(tiles, lists, r)))
  }

  /** Writing inside a tile that is not live, and not on a list or only about to be. */
  lemma WriteKeepsHeld(segs: Segments, owner: Owners, tiles: Tiles, blocks: Blocks, at: u32, bytes: seq<byte>)
    requires Tiled(owner, tiles) && Fits(segs, owner) && Held(segs, tiles, blocks)
    requires at in tiles && |bytes| <= tiles[at] && at !in blocks
    ensures InSegment(segs, at, |bytes|) && Held(Write(segs, at, bytes), tiles, blocks)
  {
    assert Owns(owner, at, tiles[at]);
    forall r | r in blocks && r < LARGE
      ensures InSegment(Write(segs, at, bytes), r, |blocks[r]|)
      ensures BytesAt(Write(segs, at, bytes), r, |blocks[r]|) == blocks[r]
    {
      WriteElsewhere(segs, owner, tiles, at, bytes, r, |blocks[r]|);
    }
  }

  /** Overwriting one live block changes that block and no other. */
  lemma WriteBlock(segs: Segments, owner: Owners, tiles: Tiles, blocks: Blocks, at: u32, bytes: seq<byte>)
    requires Tiled(owner, tiles) && Fits(segs, owner) && Held(segs, tiles, blocks)
    requires at in blocks && at < LARGE && |bytes| == |blocks[at]|
    ensures InSegment(segs, at, |bytes|) && Held(Write(segs, at, bytes), tiles, blocks[at := bytes])
  {
    assert Owns(owner, at, tiles[at]);
    forall r | r in blocks && r < LARGE && r != at
      ensures InSegment(Write(segs, at, bytes), r, |blocks[r]|)
      ensures BytesAt(Write(segs, at, bytes), r, |blocks[r]|) == blocks[r]
    {
      WriteElsewhere(segs, owner, tiles, at, bytes, r, |blocks[r]|);
    }
  }

  /** Overwriting a tile that is on no list leaves every list as it was. */
  lemma WriteKeepsLists(segs: Segments, owner: Owners, tiles: Tiles, free: seq<u32>, lists: Lists, at: u32,
                        bytes: seq<byte>)
    requires Tiled(owner, tiles) && Fits(segs, owner) && FreeLists(segs, tiles, free, lists)
    requires at in tiles && |bytes| <= tiles[at] && !OnList(tiles, lists, at)
    ensures InSegment(segs, at, |bytes|) && FreeLists(Write(segs, at, bytes), tiles, free, lists)
  {
    assert Owns(owner, at, tiles[at]);
    var segs' := Write(segs, at, bytes);
    forall c | 0 <= c < |lists|
      ensures Chained(segs', free[c], lists[c])
    {
      var list := lists[c];
      assert Chained(segs, free[c], list) && Listed(tiles, c, list);
      forall j | 0 <= j < |list|
        ensures InSegment(segs', list[j], GRAIN) && Link(segs', list[j]) == First(list[j + 1..])
      {
        WriteElsewhere(segs, owner, tiles, at, bytes, list[j], tiles[list[j]]);
      }
    }
  }

  /** Threading a loose tile onto its class: the list gains it at the front. */
  lemma PushKeepsLists(segs: Segments, owner: Owners, tiles: Tiles, free: seq<u32>, lists: Lists, at: u32, c: nat)
    requires Tiled(owner, tiles) && Fits(segs, owner) && FreeLists(segs, tiles, free, lists)
    requires at in tiles && !OnList(tiles, lists, at)
    requires c < |lists| && tiles[at] == (c + 1) * GRAIN
    ensures InSegment(segs, at, GRAIN)
    ensures FreeLists(Write(segs, at, WordBytes(free[c])), tiles, free[c := at], lists[c := [at] + lists[c]])
  {
    assert Owns(owner, at, tiles[at]);
    var bytes := WordBytes(free[c]);
    WriteKeepsLists(segs, owner, tiles, free, lists, at, bytes);
    var segs' := Write(segs, at, bytes);
    WordSplice(segs[SegOf(at)], OffOf(at), free[c]);
    var list := [at] + lists[c];
    assert Chained(segs', free[c], lists[c]) && Listed(tiles, c, lists[c]);
    assert list[1..] == lists[c];
    forall j | 0 <= j < |list|
      ensures InSegment(segs', list[j], GRAIN) && Link(segs', list[j]) == First(list[j + 1..])
    {
      if j > 0 {
        assert list[j + 1..] == lists[c][j..];
        assert list[j] == lists[c][j - 1];
      }
    }
    assert Chained(segs', at, list);
    assert Listed(tiles, c, list) by {
      assert at !in lists[c];
    }
  }

  /** Taking the head off a list: what its link names is the new head. */
  lemma PopKeepsLists(segs: Segments, tiles: Tiles, free: seq<u32>, lists: Lists, c: nat)
    requires FreeLists(segs, tiles, free, lists)
    requires c < |lists| && lists[c] != []
    ensures InSegment(segs, free[c], GRAIN)
    ensures FreeLists(segs, tiles, free[c := Link(segs, free[c])], lists[c := lists[c][1..]])
  {
    var list := lists[c];
    assert Chained(segs, free[c], list) && Listed(tiles, c, list);
    assert list[0] == free[c];
    var rest := list[1..];
    forall j | 0 <= j < |rest|
      ensures InSegment(segs, rest[j], GRAIN) && Link(segs, rest[j]) == First(rest[j + 1..])
    {
      assert rest[j] == list[j + 1];
      assert rest[j + 1..] == list[j + 2..];
    }
  }

  lemma PushSettles(tiles: Tiles, blocks: Blocks, lists: Lists, at: u32, c: nat)
    requires Settled(tiles, blocks, lists, {at})
    requires c < |lists| && tiles[at] == (c + 1) * GRAIN
    ensures Settled(tiles, blocks, lists[c := [at] + lists[c]], {})
    ensures FreeBytes(lists[c := [at] + lists[c]]) == FreeBytes(lists) + tiles[at]
  {
    var lists' := lists[c := [at] + lists[c]];
    FreeBytesStep(lists, c, lists[c], [at] + lists[c]);
    forall r | r in tiles
      ensures OnList(tiles, lists', r) <==> OnList(tiles, lists, r) || r == at
    {
      assert lists'[c] == [at] + lists[c];
    }
  }

  lemma PopSettles(tiles: Tiles, blocks: Blocks, lists: Lists, c: nat)
    requires Settled(tiles, blocks, lists, {})
    requires c < |lists| && lists[c] != [] && Listed(tiles, c, lists[c])
    ensures Settled(tiles, blocks, lists[c := lists[c][1..]], {lists[c][0]})
    ensures FreeBytes(lists[c := lists[c][1..]]) + (c + 1) * GRAIN == FreeBytes(lists)
  {
    var at, rest := lists[c][0], lists[c][1..];
    var lists' := lists[c := rest];
    FreeBytesStep(lists, c, rest, lists[c]);
    assert lists[c] == [at] + rest;
    assert at !in rest;
    forall r | r in tiles
      ensures OnList(tiles, lists', r) <==> OnList(tiles, lists, r) && r != at
    {
    }
    assert OnList(tiles, lists, at);
  }

  // ---------------------------------------------------------------------------------------------
  // The slab as a value, and the steps it takes
  // ---------------------------------------------------------------------------------------------

  /** A slab: its segments, how they are tiled, its free lists and its live blocks. */
  datatype Layout = Layout(segs: Segments, owner: Owners, tiles: Tiles, free: seq<u32>, lists: Lists, blocks: Blocks)

  ghost predicate Shapes(segs: Segments)
  {
    && |segs| <= MAX_SEGMENTS
    && forall s :: 0 <= s < |segs| ==> 2 * SMALL_MAX <= |segs[s]| <= UNITS * GRAIN && |segs[s]| % GRAIN == 0
  }

  function LastLength(segs: Segments): nat
  {
    if |segs| == 0 then 0 else |segs[|segs| - 1]|
  }

  /** Every earlier segment is cut to its end and the newest to `cut` bytes. */
  ghost predicate CutTo(segs: Segments, owner: Owners, cut: nat)
  {
    && Fits(segs, owner)
    && cut <= LastLength(segs)
    && cut % GRAIN == 0
    && (forall s :: 0 <= s < |segs| - 1 ==> |owner[s]| == |segs[s]|)
    && (|segs| > 0 ==> |owner[|segs| - 1]| == cut)
  }

  /** There is a list for every class a tile belongs to. */
  ghost predicate Reached(tiles: Tiles, lists: Lists)
  {
    forall r :: r in tiles ==> tiles[r] / GRAIN <= |lists|
  }

  /** The slab is cut to `cut` bytes, tiled, and every tile but `loose` is live or on its list. */
  ghost predicate Sound(l: Layout, cut: nat, loose: set<u32>)
  {
    && Shapes(l.segs)
    && CutTo(l.segs, l.owner, cut)
    && Tiled(l.owner, l.tiles)
    && FreeLists(l.segs, l.tiles, l.free, l.lists)
    && Held(l.segs, l.tiles, l.blocks)
    && Settled(l.tiles, l.blocks, l.lists, loose)
    && Reached(l.tiles, l.lists)
  }

  lemma TileInSegment(l: Layout, cut: nat, loose: set<u32>, at: u32, len: nat)
    requires Sound(l, cut, loose) && at in l.tiles && len <= l.tiles[at]
    ensures InSegment(l.segs, at, len)
  {
    assert Owns(l.owner, at, l.tiles[at]);
  }

  lemma SameShape(segs: Segments, segs': Segments, owner: Owners, cut: nat)
    requires Shapes(segs) && CutTo(segs, owner, cut)
    requires |segs'| == |segs| && forall s :: 0 <= s < |segs| ==> |segs'[s]| == |segs[s]|
    ensures Shapes(segs') && CutTo(segs', owner, cut)
  {
  }

  /** Thread a loose tile onto the list of class `c`. */
  ghost function Push(l: Layout, at: u32, c: nat): Layout
    requires InSegment(l.segs, at, GRAIN) && c < |l.free| && c < |l.lists|
  {
    l.(segs := Write(l.segs, at, WordBytes(l.free[c])), free := l.free[c := at],
        lists := l.lists[c := [at] + l.lists[c]])
  }

  lemma PushSound(l: Layout, cut: nat, at: u32, c: nat)
    requires Sound(l, cut, {at})
    requires c < |l.free| && l.tiles[at] == (c + 1) * GRAIN
    ensures InSegment(l.segs, at, GRAIN)
    ensures Sound(Push(l, at, c), cut, {})
    ensures FreeBytes(Push(l, at, c).lists) == FreeBytes(l.lists) + (c + 1) * GRAIN
  {
    PushKeepsLists(l.segs, l.owner, l.tiles, l.free, l.lists, at, c);
    WriteKeepsHeld(l.segs, l.owner, l.tiles, l.blocks, at, WordBytes(l.free[c]));
    PushSettles(l.tiles, l.blocks, l.lists, at, c);
    SameShape(l.segs, Push(l, at, c).segs, l.owner, cut);
  }

  /** Take the head off the list of class `c`, following its link. */
  ghost function Pop(l: Layout, c: nat): Layout
    requires c < |l.free| && c < |l.lists| && l.lists[c] != [] && InSegment(l.segs, l.free[c], GRAIN)
  {
    l.(free := l.free[c := Link(l.segs, l.free[c])], lists := l.lists[c := l.lists[c][1..]])
  }

  lemma PopSound(l: Layout, cut: nat, c: nat)
    requires Sound(l, cut, {})
    requires c < |l.free| && l.lists[c] != []
    ensures l.free[c] == l.lists[c][0] && l.free[c] in l.tiles && l.tiles[l.free[c]] == (c + 1) * GRAIN
    ensures InSegment(l.segs, l.free[c], GRAIN)
    ensures Sound(Pop(l, c), cut, {l.free[c]})
    ensures FreeBytes(Pop(l, c).lists) + (c + 1) * GRAIN == FreeBytes(l.lists)
  {
    assert Chained(l.segs, l.free[c], l.lists[c]) && Listed(l.tiles, c, l.lists[c]);
    PopKeepsLists(l.segs, l.tiles, l.free, l.lists, c);
    PopSettles(l.tiles, l.blocks, l.lists, c);
  }

  /** Cut a tile of `len` bytes at `at`, the end of what has been cut. */
  ghost function Cut(l: Layout, at: u32, len: nat): Layout
    requires SegOf(at) < |l.owner|
  {
    l.(owner := Extend(l.owner, SegOf(at), at, len), tiles := l.tiles[at := len])
  }

  lemma CutKeepsLists(tiles: Tiles, lists: Lists, at: u32, len: nat)
    requires forall c :: 0 <= c < |lists| ==> Listed(tiles, c, lists[c])
    requires at !in tiles
    ensures forall c :: 0 <= c < |lists| ==> Listed(tiles[at := len], c, lists[c])
    ensures forall r :: r in tiles ==> OnList(tiles[at := len], lists, r) == OnList(tiles, lists, r)
    ensures !OnList(tiles[at := len], lists, at)
  {
    forall c | 0 <= c < |lists|
      ensures Listed(tiles[at := len], c, lists[c]) && at !in lists[c]
    {
      assert Listed(tiles, c, lists[c]);
    }
  }

  lemma ExtendCut(segs: Segments, owner: Owners, cut: nat, at: u32, len: nat)
    requires CutTo(segs, owner, cut) && |segs| > 0
    requires cut + len <= LastLength(segs) && len % GRAIN == 0
    ensures CutTo(segs, Extend(owner, |segs| - 1, at, len), cut + len)
  {
  }

  lemma CutSound(l: Layout, cut: nat, at: u32, len: nat)
    requires Sound(l, cut, {})
    requires |l.segs| > 0 && SegOf(at) == |l.segs| - 1 && OffOf(at) == cut
    requires TileShape(at, len) && cut + len <= LastLength(l.segs)
    requires len / GRAIN <= |l.lists|
    ensures at !in l.tiles && at !in l.blocks && SegOf(at) < |l.owner|
    ensures Sound(Cut(l, at, len), cut + len, {at})
  {
    hide Tiled, Shapes, Extend, Listed, Chained;
    ExtendTiles(l.owner, l.tiles, |l.segs| - 1, at, len);
    CutKeepsLists(l.tiles, l.lists, at, len);
    ExtendCut(l.segs, l.owner, cut, at, len);
  }

  /** Append a segment of which nothing is cut. */
  ghost function Grow(l: Layout, segment: seq<byte>): Layout
  {
    l.(segs := l.segs + [segment], owner := l.owner + [[]])
  }

  lemma GrowSound(l: Layout, segment: seq<byte>)
    requires Sound(l, LastLength(l.segs), {})
    requires |l.segs| < MAX_SEGMENTS
    requires 2 * SMALL_MAX <= |segment| <= UNITS * GRAIN && |segment| % GRAIN == 0
    ensures Sound(Grow(l, segment), 0, {})
  {
    AppendSegmentTiles(l.owner, l.tiles);
    var k := Grow(l, segment);
    forall r, len | InSegment(l.segs, r, len)
      ensures InSegment(k.segs, r, len) && BytesAt(k.segs, r, len) == BytesAt(l.segs, r, len)
    {
    }
    forall c | 0 <= c < |l.lists|
      ensures Chained(k.segs, l.free[c], l.lists[c])
    {
      assert Chained(l.segs, l.free[c], l.lists[c]);
    }
  }

  /** Reach another size class, whose list starts empty. */
  ghost function Reach(l: Layout, classes: nat): Layout
    requires |l.free| <= classes && |l.lists| <= classes
  {
    l.(free := l.free + seq(classes - |l.free|, _ => NONE), lists := l.lists + seq(classes - |l.lists|, _ => []))
  }

  lemma ReachSound(l: Layout, cut: nat, classes: nat)
    requires Sound(l, cut, {}) && |l.free| <= classes <= CLASSES
    ensures Sound(Reach(l, classes), cut, {})
    ensures FreeBytes(Reach(l, classes).lists) == FreeBytes(l.lists)
  {
    var k := Reach(l, classes);
    FreeBytesGrow(l.lists, classes - |l.lists|);
    forall c | 0 <= c < |k.lists|
      ensures Chained(k.segs, k.free[c], k.lists[c]) && Listed(k.tiles, c, k.lists[c])
    {
      if c < |l.lists| {
        assert Chained(l.segs, l.free[c], l.lists[c]) && Listed(l.tiles, c, l.lists[c]);
      }
    }
    forall r | r in l.tiles
      ensures OnList(l.tiles, k.lists, r) == OnList(l.tiles, l.lists, r)
    {
    }
  }

  lemma LooseIsShaped(l: Layout, cut: nat, at: u32)
    requires Sound(l, cut, {at})
    ensures at in l.tiles && TileShape(at, l.tiles[at]) && InSegment(l.segs, at, l.tiles[at])
    ensures |l.free| == |l.lists| && at !in l.blocks
  {
    TileInSegment(l, cut, {at}, at, l.tiles[at]);
    hide Held, FreeLists, OnList;
    assert |l.free| == |l.lists| by { SameClasses(l, cut, {at}); }
  }

  lemma SameClasses(l: Layout, cut: nat, loose: set<u32>)
    requires Sound(l, cut, loose)
    ensures |l.free| == |l.lists| <= CLASSES
  {
  }

  lemma TileIsShaped(owner: Owners, tiles: Tiles, at: u32)
    requires Tiled(owner, tiles) && at in tiles
    ensures TileShape(at, tiles[at])
  {
  }

  lemma ClaimHeld(segs: Segments, tiles: Tiles, blocks: Blocks, at: u32, len: nat)
    requires Held(segs, tiles, blocks)
    requires at in tiles && ClassOf(len).Some? && tiles[at] == Charge(len) && InSegment(segs, at, len)
    ensures Held(segs, tiles, blocks[at := BytesAt(segs, at, len)])
  {
    hide InSegment, BytesAt, ClassOf, Charge;
    assert |BytesAt(segs, at, len)| == len by { LengthOfBytes(segs, at, len); }
  }

  lemma LengthOfBytes(segs: Segments, at: u32, len: nat)
    requires InSegment(segs, at, len)
    ensures |BytesAt(segs, at, len)| == len
  {
  }

  lemma ClaimSettles(tiles: Tiles, blocks: Blocks, lists: Lists, at: u32, bytes: seq<byte>)
    requires Settled(tiles, blocks, lists, {at})
    ensures at !in blocks && Settled(tiles, blocks[at := bytes], lists, {})
  {
    hide OnList;
  }

  /** A loose tile becomes a live block of `len` bytes, holding whatever its last owner left. */
  lemma ClaimSound(l: Layout, cut: nat, at: u32, len: nat)
    requires Sound(l, cut, {at})
    requires ClassOf(len).Some? && l.tiles[at] == Charge(len)
    ensures InSegment(l.segs, at, len) && at !in l.blocks && at < LARGE
    ensures Sound(l.(blocks := l.blocks[at := BytesAt(l.segs, at, len)]), cut, {})
  {
    TileInSegment(l, cut, {at}, at, len);
    TileIsShaped(l.owner, l.tiles, at);
    ClaimHeld(l.segs, l.tiles, l.blocks, at, len);
    ClaimSettles(l.tiles, l.blocks, l.lists, at, BytesAt(l.segs, at, len));
    hide Tiled, Shapes, CutTo, FreeLists, OnList, Reached, InSegment, BytesAt;
  }

  /** A live block becomes a loose tile. */
  lemma ReleaseSound(l: Layout, cut: nat, at: u32)
    requires Sound(l, cut, {}) && at in l.blocks && at < LARGE
    ensures Sound(l.(blocks := l.blocks - {at}), cut, {at})
    ensures l.tiles[at] == Charge(|l.blocks[at]|)
    ensures Charge(|l.blocks[at]|) / GRAIN - 1 < |l.free|
  {
    hide Tiled, Shapes, CutTo, OnList, Listed, Chained;
  }

  // ---------------------------------------------------------------------------------------------
  // The oversized table
  // ---------------------------------------------------------------------------------------------

  /** Every index of the oversized table is a hole, listed once, or a live block at its exact length. */
  ghost predicate Oversized(large: seq<seq<byte>>, holes: seq<u32>, blocks: Blocks)
  {
    && |large| <= LARGE
    && Distinct(holes)
    && (forall j :: 0 <= j < |holes| ==> holes[j] < |large| && large[holes[j]] == [])
    && (forall i :: 0 <= i < |large| ==> (i in holes <==> LARGE + i !in blocks))
    && (forall r :: r in blocks && r >= LARGE ==>
                  r - LARGE < |large| && large[r - LARGE] == blocks[r] && ClassOf(|blocks[r]|).None?)
  }

  /** The slab does not notice what happens to oversized blocks. */
  lemma LargeKeepsSound(l: Layout, cut: nat, blocks: Blocks)
    requires Sound(l, cut, {})
    requires forall r :: r < LARGE ==> (r in blocks <==> r in l.blocks)
    requires forall r :: r in blocks && r < LARGE ==> blocks[r] == l.blocks[r]
    ensures Sound(l.(blocks := blocks), cut, {})
  {
    forall r | r in l.tiles
      ensures r < LARGE
    {
      TileIsShaped(l.owner, l.tiles, r);
    }
    hide Tiled, Shapes, CutTo, FreeLists, OnList, Reached, InSegment, BytesAt, ClassOf, Charge;
    LargeKeepsHeld(l.segs, l.tiles, l.blocks, blocks);
  }

  lemma LargeKeepsHeld(segs: Segments, tiles: Tiles, blocks: Blocks, blocks': Blocks)
    requires Held(segs, tiles, blocks)
    requires forall r :: r < LARGE ==> (r in blocks' <==> r in blocks)
    requires forall r :: r in blocks' && r < LARGE ==> blocks'[r] == blocks[r]
    ensures Held(segs, tiles, blocks')
  {
    hide InSegment, BytesAt, ClassOf, Charge;
  }

  lemma FillHole(large: seq<seq<byte>>, holes: seq<u32>, blocks: Blocks, block: seq<byte>)
    requires Oversized(large, holes, blocks) && holes != [] && ClassOf(|block|).None?
    ensures var h := holes[|holes| - 1];
            && h < |large| && large[h] == [] && LARGE + h !in blocks
            && Oversized(large[h := block], holes[..|holes| - 1], blocks[LARGE + h := block])
  {
    var n := |holes| - 1;
    var h := holes[n];
    var rest := holes[..n];
    assert holes == rest + [h];
    assert h !in rest && h in holes;
    assert forall i :: i in holes <==> i in rest || i == h;
    var large' := large[h := block];
    forall j | 0 <= j < |rest|
      ensures rest[j] < |large'| && large'[rest[j]] == []
    {
      assert rest[j] == holes[j] && rest[j] in rest;
    }
  }

  lemma AppendLarge(large: seq<seq<byte>>, blocks: Blocks, block: seq<byte>)
    requires Oversized(large, [], blocks) && |large| < LARGE && ClassOf(|block|).None?
    ensures LARGE + |large| !in blocks
    ensures Oversized(large + [block], [], blocks[LARGE + |large| := block])
  {
  }

  lemma DigHole(large: seq<seq<byte>>, holes: seq<u32>, blocks: Blocks, at: u32)
    requires Oversized(large, holes, blocks) && at in blocks && at >= LARGE
    ensures at - LARGE < |large| && large[at - LARGE] == blocks[at] && Charge(|blocks[at]|) == |blocks[at]|
    ensures Oversized(large[at - LARGE := []], holes + [at - LARGE], blocks - {at})
  {
    var h := at - LARGE;
    assert h !in holes;
    var holes' := holes + [h];
    assert forall i :: i in holes' <==> i in holes || i == h;
    assert Distinct(holes');
    var large' := large[h := []];
    forall j | 0 <= j < |holes'|
      ensures holes'[j] < |large'| && large'[holes'[j]] == []
    {
    }
  }

  /** Overwriting an oversized block changes that block and no other. */
  lemma WriteLarge(large: seq<seq<byte>>, holes: seq<u32>, blocks: Blocks, at: u32, bytes: seq<byte>)
    requires Oversized(large, holes, blocks) && at in blocks && at >= LARGE && |bytes| == |blocks[at]|
    ensures Oversized(large[at - LARGE := bytes], holes, blocks[at := bytes])
  {
    assert at - LARGE !in holes;
  }

  /** The oversized table does not notice what happens to slab blocks. */
  lemma SmallKeepsOversized(large: seq<seq<byte>>, holes: seq<u32>, blocks: Blocks, at: u32, bytes: seq<byte>)
    requires Oversized(large, holes, blocks) && at < LARGE
    ensures Oversized(large, holes, blocks[at := bytes])
    ensures Oversized(large, holes, blocks - {at})
  {
    hide ClassOf;
  }

  /** A head that is not the reserved reference is the first of a non-empty list, and the converse. */
  lemma HeadIsListed(l: Layout, cut: nat, loose: set<u32>, c: nat)
    requires Sound(l, cut, loose) && c < |l.free|
    ensures |l.free| == |l.lists|
    ensures l.free[c] == NONE <==> l.lists[c] == []
  {
    SameClasses(l, cut, loose);
    assert Chained(l.segs, l.free[c], l.lists[c]) && Listed(l.tiles, c, l.lists[c]);
    if l.lists[c] != [] {
      TileIsShaped(l.owner, l.tiles, l.lists[c][0]);
    }
  }

  lemma AtMostSegments(l: Layout, cut: nat, loose: set<u32>)
    requires Sound(l, cut, loose)
    ensures |l.segs| <= MAX_SEGMENTS && |l.owner| == |l.segs|
  {
  }

  lemma ChargesWrite(blocks: Blocks, at: u32, bytes: seq<byte>)
    requires at in blocks && |bytes| == |blocks[at]|
    ensures Charges(blocks[at := bytes]) == Charges(blocks)
  {
    ChargesRemove(blocks, at);
    ChargesRemove(blocks[at := bytes], at);
    assert blocks[at := bytes] - {at} == blocks - {at};
  }

  /** Writing one live block keeps the slab and changes no other block. */
  lemma WriteSound(l: Layout, cut: nat, at: u32, bytes: seq<byte>)
    requires Sound(l, cut, {}) && at in l.blocks && at < LARGE && |bytes| == |l.blocks[at]|
    ensures InSegment(l.segs, at, |bytes|)
    ensures Sound(l.(segs := Write(l.segs, at, bytes), blocks := l.blocks[at := bytes]), cut, {})
  {
    WriteBlock(l.segs, l.owner, l.tiles, l.blocks, at, bytes);
    WriteKeepsLists(l.segs, l.owner, l.tiles, l.free, l.lists, at, bytes);
    SameShape(l.segs, Write(l.segs, at, bytes), l.owner, cut);
    hide Tiled, Shapes, CutTo, FreeLists, OnList, Reached, InSegment, BytesAt, Held, Write;
  }

  // ---------------------------------------------------------------------------------------------
  // What the layout comes to
  // ---------------------------------------------------------------------------------------------

  ghost predicate InLive(l: Layout, s: nat, b: nat)
  {
    exists r :: r in l.blocks && r < LARGE && Covers(l.tiles, r, s, b)
  }

  ghost predicate InFree(l: Layout, s: nat, b: nat)
  {
    exists r :: Covers(l.tiles, r, s, b) && OnList(l.tiles, l.lists, r)
  }

  ghost predicate InReserve(l: Layout, cut: nat, s: nat, b: nat)
  {
    s == |l.segs| - 1 && cut <= b
  }

  /** No two tiles share a byte, so neither do any two live blocks, or a live block and a free one. */
  lemma TilesDisjoint(l: Layout, cut: nat, loose: set<u32>, r: u32, t: u32, s: nat, b: nat)
    requires Sound(l, cut, loose) && Covers(l.tiles, r, s, b) && Covers(l.tiles, t, s, b)
    ensures r == t
  {
    assert Owns(l.owner, r, l.tiles[r]) && Owns(l.owner, t, l.tiles[t]);
    assert l.owner[s][b] == r;
  }

  /** Live blocks, the blocks the free lists reach, and the uncut reserve partition every segment. */
  lemma EveryByteOnce(l: Layout, cut: nat, s: nat, b: nat)
    requires Sound(l, cut, {}) && s < |l.segs| && b < |l.segs[s]|
    ensures InLive(l, s, b) || InFree(l, s, b) || InReserve(l, cut, s, b)
    ensures !(InLive(l, s, b) && InFree(l, s, b))
    ensures !(InLive(l, s, b) && InReserve(l, cut, s, b))
    ensures !(InFree(l, s, b) && InReserve(l, cut, s, b))
  {
    hide FreeLists, Reached, Shapes, Held;
    if b < |l.owner[s]| {
      var r := l.owner[s][b];
      assert Covers(l.tiles, r, s, b);
      assert r < LARGE by { TileIsShaped(l.owner, l.tiles, r); }
      if InFree(l, s, b) {
        var t :| Covers(l.tiles, t, s, b) && OnList(l.tiles, l.lists, t);
        TilesDisjoint(l, cut, {}, r, t, s, b);
      }
      if InLive(l, s, b) {
        var t :| t in l.blocks && t < LARGE && Covers(l.tiles, t, s, b);
        TilesDisjoint(l, cut, {}, r, t, s, b);
      }
    } else {
      forall r | Covers(l.tiles, r, s, b)
        ensures false
      {
      }
    }
  }

  /** The blocks whose references are below `bound`. */
  ghost function Below(blocks: Blocks, bound: nat): Blocks
  {
    map r | r in blocks && r < bound :: blocks[r]
  }

  lemma {:induction false} LargeCharges(large: seq<seq<byte>>, holes: seq<u32>, blocks: Blocks, n: nat)
    requires Oversized(large, holes, blocks) && n <= |large|
    ensures Charges(Below(blocks, LARGE + n)) == Charges(Below(blocks, LARGE)) + Lengths(large[..n])
  {
    hide Oversized, Charges, Below, Lengths, Charge;
    if n == 0 {
      NoLengths(large);
    } else {
      LargeCharges(large, holes, blocks, n - 1);
      LengthsAppend(large[..n - 1], large[n - 1]);
      assert large[..n] == large[..n - 1] + [large[n - 1]];
      OneLargeMore(large, holes, blocks, n - 1);
    }
  }

  lemma NoLengths(large: seq<seq<byte>>)
    ensures Lengths(large[..0]) == 0
  {
  }

  /** One more index of the oversized table: a block charged its length, or a hole charged nothing. */
  lemma OneLargeMore(large: seq<seq<byte>>, holes: seq<u32>, blocks: Blocks, i: nat)
    requires Oversized(large, holes, blocks) && i < |large|
    ensures Charges(Below(blocks, LARGE + i + 1)) == Charges(Below(blocks, LARGE + i)) + |large[i]|
  {
    hide Charges, Charge;
    var at := LARGE + i;
    LargeAt(large, holes, blocks, i);
    if at in blocks {
      assert Below(blocks, at + 1) == Below(blocks, at)[at := blocks[at]];
      ChargesAdd(Below(blocks, at), at, blocks[at]);
    } else {
      assert Below(blocks, at + 1) == Below(blocks, at);
    }
  }

  lemma LargeAt(large: seq<seq<byte>>, holes: seq<u32>, blocks: Blocks, i: nat)
    requires Oversized(large, holes, blocks) && i < |large|
    ensures LARGE + i in blocks ==> blocks[LARGE + i] == large[i] && Charge(|large[i]|) == |large[i]|
    ensures LARGE + i !in blocks ==> large[i] == []
  {
    if LARGE + i !in blocks {
      assert i in holes;
    }
  }

  /** What is charged is the slab's blocks at their classes and the oversized ones at their lengths. */
  lemma ChargesSplit(large: seq<seq<byte>>, holes: seq<u32>, blocks: Blocks)
    requires Oversized(large, holes, blocks)
    ensures Charges(blocks) == Charges(Below(blocks, LARGE)) + Lengths(large)
  {
    LargeCharges(large, holes, blocks, |large|);
    assert large[..|large|] == large;
    assert Below(blocks, LARGE + |large|) == blocks;
  }
}
