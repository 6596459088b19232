/** The kernel heap of pelikanOS/src/heap.c on the level of its block list: first fit, splitting
    and coalescing, and what they keep: in chain order the blocks tile the acquired frames. */
module HeapBlocks {

  const HEADER: nat := 20        // sizeof(block_t) on the 32-bit target
  const FRAME: nat := 4096
  const LARGEST: nat := FRAME - HEADER

  datatype Block = Block(addr: nat, size: nat, free: bool)

  function End(b: Block): nat { b.addr + HEADER + b.size }

  /** The first free block that is large enough, `|bs|` when there is none. */
  function FirstFit(bs: seq<Block>, size: nat): (i: nat)
    ensures i <= |bs| && (i < |bs| ==> bs[i].free && bs[i].size >= size)
    ensures forall j :: 0 <= j < i ==> !(bs[j].free && bs[j].size >= size)
  {
    if bs == [] || (bs[0].free && bs[0].size >= size) then 0
    else
      var i := FirstFit(bs[1..], size);
      assert forall j :: 0 < j < i + 1 ==> bs[j] == bs[1..][j - 1];
      i + 1
  }

  function Splits(b: Block, size: nat): bool { b.size >= size + HEADER + 1 }

  /** Use block `i`, splitting it when the rest can hold a header and a byte. */
  function Place(bs: seq<Block>, i: nat, size: nat): seq<Block>
    requires i < |bs| && bs[i].size >= size
  {
    var b := bs[i];
    if Splits(b, size) then
      bs[..i] + [Block(b.addr, size, false), Block(b.addr + HEADER + size, b.size - size - HEADER, true)] + bs[i + 1..]
    else bs[i := b.(free := false)]
  }

  function Grow(bs: seq<Block>, frame: nat): seq<Block> { bs + [Block(frame, LARGEST, true)] }

  /** kmalloc for 1 <= size <= LARGEST; `frame` is acquired only when nothing fits. */
  function Malloc(bs: seq<Block>, size: nat, frame: nat): seq<Block>
    requires size <= LARGEST
  {
    var i := FirstFit(bs, size);
    Place(if i < |bs| then bs else Grow(bs, frame), i, size)
  }

  predicate Joins(bs: seq<Block>, i: nat) {
    i + 1 < |bs| && bs[i].free && bs[i + 1].free && End(bs[i]) == bs[i + 1].addr
  }

  /** Merge block `i` with its successor where both are free and touch. */
  function Join(bs: seq<Block>, i: nat): seq<Block> {
    if Joins(bs, i) then
      bs[..i] + [Block(bs[i].addr, bs[i].size + HEADER + bs[i + 1].size, true)] + bs[i + 2..]
    else bs
  }

  function FreeOnly(bs: seq<Block>, i: nat): seq<Block>
    requires i < |bs|
  {
    Join(bs[i := bs[i].(free := true)], i)
  }

  /** kfree of block `i` */
  function Free(bs: seq<Block>, i: nat): seq<Block>
    requires i < |bs|
  {
    if i == 0 then FreeOnly(bs, i) else Join(FreeOnly(bs, i), i - 1)
  }

  // ----- the same with the `prev` links -----

  /** The block list with the `prev` link of each block; null is address 0. */
  datatype Chain = Chain(blocks: seq<Block>, links: seq<nat>)

  predicate Paired(c: Chain) { |c.links| == |c.blocks| }

  function AddrOrNull(bs: seq<Block>, i: int): nat {
    if 0 <= i < |bs| then bs[i].addr else 0
  }

  /** The link of block `k` names its predecessor. */
  predicate Exact(c: Chain, k: nat)
    requires Paired(c) && k < |c.blocks|
  {
    c.links[k] == AddrOrNull(c.blocks, k - 1)
  }

  predicate AllExact(c: Chain)
    requires Paired(c)
  {
    forall k :: 0 <= k < |c.blocks| ==> Exact(c, k)
  }

  function GrowChain(c: Chain, frame: nat): (r: Chain)
    requires Paired(c)
    ensures Paired(r)
  {
    Chain(Grow(c.blocks, frame), c.links + [AddrOrNull(c.blocks, |c.blocks| - 1)])
  }

  /** The new block of a split gets an exact link; the link of its successor is not touched. */
  function PlaceChain(c: Chain, i: nat, size: nat): (r: Chain)
    requires Paired(c) && i < |c.blocks| && c.blocks[i].size >= size
    ensures Paired(r)
  {
    var b := c.blocks[i];
    Chain(Place(c.blocks, i, size),
          if Splits(b, size) then c.links[..i + 1] + [b.addr] + c.links[i + 1..] else c.links)
  }

  function MallocChain(c: Chain, size: nat, frame: nat): (r: Chain)
    requires Paired(c) && size <= LARGEST
    ensures Paired(r) && r.blocks == Malloc(c.blocks, size, frame)
  {
    var i := FirstFit(c.blocks, size);
    PlaceChain(if i < |c.blocks| then c else GrowChain(c, frame), i, size)
  }

  lemma MallocPlaces(c: Chain, size: nat, frame: nat)
    requires Paired(c) && size <= LARGEST
    ensures var i := FirstFit(c.blocks, size);
            var d, r := if i < |c.blocks| then c else GrowChain(c, frame), MallocChain(c, size, frame);
            && i < |d.blocks| && d.blocks[i].size >= size && r == PlaceChain(d, i, size)
            && i < |r.blocks| && r.blocks[i].addr == d.blocks[i].addr && !r.blocks[i].free && r.blocks[i].size >= size
  {
  }

  function MarkChain(c: Chain, i: nat, free: bool): (r: Chain)
    requires Paired(c) && i < |c.blocks|
    ensures Paired(r)
  {
    Chain(c.blocks[i := c.blocks[i].(free := free)], c.links)
  }

  /** The block behind a joint one gets an exact link. */
  function JoinChain(c: Chain, i: nat): (r: Chain)
    requires Paired(c)
    ensures Paired(r)
  {
    if !Joins(c.blocks, i) then c
    else Chain(Join(c.blocks, i),
               c.links[..i + 1] + (if i + 2 < |c.blocks| then [c.blocks[i].addr] + c.links[i + 3..] else []))
  }

  /** kfree of block `i`: it coalesces with the predecessor only if the link names it. */
  function FreeChain(c: Chain, i: nat): (r: Chain)
    requires Paired(c) && i < |c.blocks|
    ensures Paired(r) && r.blocks == if Exact(c, i) then Free(c.blocks, i) else FreeOnly(c.blocks, i)
  {
    var r := JoinChain(MarkChain(c, i, true), i);
    if i > 0 && Exact(c, i) then JoinChain(r, i - 1) else r
  }

  /** Where block `k` and its link come from after a split of block `i`. */
  lemma SplitIndex(c: Chain, i: nat, size: nat, k: nat)
    requires Paired(c) && i < |c.blocks| && Splits(c.blocks[i], size) && k <= |c.blocks|
    ensures var r := PlaceChain(c, i, size);
            && r.blocks == Place(c.blocks, i, size) && |r.blocks| == |c.blocks| + 1
            && (k <= i ==> r.blocks[k].addr == c.blocks[k].addr && r.links[k] == c.links[k])
            && (k < i ==> r.blocks[k] == c.blocks[k])
            && (k == i + 1 ==> r.blocks[k].addr == c.blocks[i].addr + HEADER + size && r.links[k] == c.blocks[i].addr)
            && (k > i + 1 ==> r.blocks[k] == c.blocks[k - 1] && r.links[k] == c.links[k - 1])
  {
  }

  /** Where block `k` and its link come from after a join of block `i` with the next. */
  lemma JoinIndex(c: Chain, i: nat, k: nat)
    requires Paired(c) && Joins(c.blocks, i) && k + 1 < |c.blocks|
    ensures var r := JoinChain(c, i);
            && r.blocks == Join(c.blocks, i) && |r.blocks| == |c.blocks| - 1 && i < |r.blocks|
            && (k <= i ==> r.blocks[k].addr == c.blocks[k].addr && r.links[k] == c.links[k])
            && (k < i ==> r.blocks[k] == c.blocks[k])
            && (k > i ==> r.blocks[k] == c.blocks[k + 1])
            && (k == i + 1 ==> r.links[k] == c.blocks[i].addr)
            && (k > i + 1 ==> r.links[k] == c.links[k + 1])
  {
  }

  /** A split makes the link of the block behind it stale if it was exact, and leaves every other
      one as exact as it was; the new block's own is exact. */
  lemma SplitLinks(c: Chain, i: nat, size: nat)
    requires Paired(c) && i < |c.blocks| && Splits(c.blocks[i], size)
    ensures var r := PlaceChain(c, i, size);
            && |r.blocks| == |c.blocks| + 1 && Exact(r, i + 1)
            && (forall k :: 0 <= k <= i ==> (Exact(r, k) <==> Exact(c, k)))
            && (i + 2 < |r.blocks| && Exact(c, i + 1) ==> !Exact(r, i + 2))
            && (forall k :: i + 2 < k < |r.blocks| ==> (Exact(r, k) <==> Exact(c, k - 1)))
  {
    var r := PlaceChain(c, i, size);
    assert forall k :: 0 <= k < i ==> r.blocks[k] == c.blocks[k];
    assert forall k :: i + 1 < k < |r.blocks| ==> r.blocks[k] == c.blocks[k - 1] && r.links[k] == c.links[k - 1];
  }

  lemma PlaceLinks(c: Chain, i: nat, size: nat)
    requires Paired(c) && i < |c.blocks| && c.blocks[i].size >= size && AllExact(c)
    ensures AllExact(PlaceChain(c, i, size)) <==> !(i + 1 < |c.blocks| && Splits(c.blocks[i], size))
  {
    var r := PlaceChain(c, i, size);
    if Splits(c.blocks[i], size) {
      SplitLinks(c, i, size);
      hide PlaceChain, Splits;
      if i + 1 < |c.blocks| {
        assert Exact(c, i + 1) && !Exact(r, i + 2);
      } else {
        forall k | 0 <= k < |r.blocks| ensures Exact(r, k) { if k <= i { assert Exact(c, k); } }
      }
    } else {
      forall k | 0 <= k < |r.blocks| ensures Exact(r, k) { assert Exact(c, k); }
    }
  }

  /** An allocation keeps all links exact exactly when no block with a successor is split. */
  lemma MallocLinks(c: Chain, size: nat, frame: nat)
    requires Paired(c) && size <= LARGEST && AllExact(c)
    ensures var i := FirstFit(c.blocks, size);
            AllExact(MallocChain(c, size, frame)) <==> !(i + 1 < |c.blocks| && Splits(c.blocks[i], size))
  {
    var i := FirstFit(c.blocks, size);
    var d := if i < |c.blocks| then c else GrowChain(c, frame);
    assert AllExact(d) by {
      forall k | 0 <= k < |d.blocks| ensures Exact(d, k) { if k < |c.blocks| { assert Exact(c, k); } }
    }
    PlaceLinks(d, i, size);
  }

  /** A join repairs the link behind the joint block and leaves every other one as exact as it was. */
  lemma JoinLinks(c: Chain, i: nat)
    requires Paired(c) && Joins(c.blocks, i)
    ensures var r := JoinChain(c, i);
            && |r.blocks| == |c.blocks| - 1 && (i + 1 < |r.blocks| ==> Exact(r, i + 1))
            && (forall k :: 0 <= k <= i ==> (Exact(r, k) <==> Exact(c, k)))
            && (forall k :: i + 1 < k < |r.blocks| ==> (Exact(r, k) <==> Exact(c, k + 1)))
  {
    var r := JoinChain(c, i);
    assert forall k :: 0 <= k < i ==> r.blocks[k] == c.blocks[k];
    assert forall k :: i < k < |r.blocks| ==> r.blocks[k] == c.blocks[k + 1];
    assert forall k :: i + 1 < k < |r.blocks| ==> r.links[k] == c.links[k + 1];
  }

  lemma JoinKeepsExact(c: Chain, i: nat)
    requires Paired(c) && AllExact(c)
    ensures AllExact(JoinChain(c, i))
  {
    if Joins(c.blocks, i) {
      var r := JoinChain(c, i);
      JoinLinks(c, i);
      hide JoinChain, Joins;
      forall k | 0 <= k < |r.blocks| ensures Exact(r, k) {
        if k <= i { assert Exact(c, k); } else if k > i + 1 { assert Exact(c, k + 1); }
      }
    }
  }

  /** Freeing never makes a link stale. */
  lemma FreeLinks(c: Chain, i: nat)
    requires Paired(c) && i < |c.blocks| && AllExact(c)
    ensures AllExact(FreeChain(c, i))
  {
    var d := MarkChain(c, i, true);
    forall k | 0 <= k < |d.blocks| ensures Exact(d, k) { assert Exact(c, k); }
    JoinKeepsExact(d, i);
    if i > 0 { JoinKeepsExact(JoinChain(d, i), i - 1); }
  }

  /** The predecessor can be joined after the first half of kfree exactly when it could be before. */
  lemma FreeOnlyAt(bs: seq<Block>, i: nat)
    requires 0 < i < |bs|
    ensures Joins(FreeOnly(bs, i), i - 1) <==> bs[i - 1].free && End(bs[i - 1]) == bs[i].addr
  {
    var r := FreeOnly(bs, i);
    assert r[i - 1] == bs[i - 1] && r[i].addr == bs[i].addr && r[i].free;
  }

  lemma JoinShortens(bs: seq<Block>, i: nat)
    requires Joins(bs, i)
    ensures |Join(bs, i)| == |bs| - 1
  {
  }

  /** Freeing joins a block with both its neighbours exactly when its link is exact, or before it there
      is no free block that touches it; otherwise those two stay apart, both free and touching. */
  lemma StaleFreeExact(c: Chain, i: nat)
    requires Paired(c) && i < |c.blocks|
    ensures FreeChain(c, i).blocks == Free(c.blocks, i) <==>
              Exact(c, i) || i == 0 || !(c.blocks[i - 1].free && End(c.blocks[i - 1]) == c.blocks[i].addr)
    ensures i > 0 && !Exact(c, i) && c.blocks[i - 1].free && End(c.blocks[i - 1]) == c.blocks[i].addr ==>
              Joins(FreeChain(c, i).blocks, i - 1)
  {
    if i > 0 { FreeOnlyAt(c.blocks, i); }
    hide JoinChain, MarkChain, FreeOnly, Joins;
    if !Exact(c, i) && i > 0 && Joins(FreeOnly(c.blocks, i), i - 1) {
      JoinShortens(FreeOnly(c.blocks, i), i - 1);
    }
  }

  // ----- the addresses the blocks cover, in chain order -----

  function Range(a: nat, n: nat): seq<nat> { seq(n, k requires k >= 0 => a + k) }

  function Cover(bs: seq<Block>): seq<nat> {
    if bs == [] then [] else Range(bs[0].addr, HEADER + bs[0].size) + Cover(bs[1..])
  }

  /** The frames in the order they were acquired, as one block each. */
  function FrameBlocks(fs: seq<nat>): (bs: seq<Block>)
    ensures |bs| == |fs| && forall i :: 0 <= i < |fs| ==> bs[i] == Block(fs[i], LARGEST, true)
  {
    if fs == [] then [] else [Block(fs[0], LARGEST, true)] + FrameBlocks(fs[1..])
  }

  /** The blocks tile the frames: no gap, no overlap, in the order of acquisition. */
  ghost predicate Tiles(bs: seq<Block>, fs: seq<nat>) {
    Cover(bs) == Cover(FrameBlocks(fs))
  }

  ghost predicate GoodFrames(fs: seq<nat>) {
    && (forall i :: 0 <= i < |fs| ==> fs[i] % FRAME == 0 && fs[i] != 0)
    && (forall i, j :: 0 <= i < j < |fs| ==> fs[i] != fs[j])
  }

  lemma {:induction false} CoverAppend(a: seq<Block>, b: seq<Block>)
    ensures Cover(a + b) == Cover(a) + Cover(b)
    decreases |a|
  {
    if a == [] {
      assert a + b == b;
    } else {
      assert (a + b)[0] == a[0] && (a + b)[1..] == a[1..] + b;
      CoverAppend(a[1..], b);
    }
  }

  /** Replacing a stretch of the chain by one that covers the same addresses. */
  lemma CoverReplace(a: seq<Block>, old_: seq<Block>, new_: seq<Block>, c: seq<Block>)
    requires Cover(old_) == Cover(new_)
    ensures Cover(a + old_ + c) == Cover(a + new_ + c)
  {
    CoverAppend(a + old_, c);
    CoverAppend(a, old_);
    CoverAppend(a + new_, c);
    CoverAppend(a, new_);
  }

  lemma CoverOne(b: Block)
    ensures Cover([b]) == Range(b.addr, HEADER + b.size)
  {
    assert [b][1..] == [];
  }

  /** Two touching blocks cover what one block of their joint size covers. */
  lemma CoverTwo(a: Block, b: Block, joint: Block)
    requires End(a) == b.addr && joint.addr == a.addr && joint.size == a.size + HEADER + b.size
    ensures Cover([a, b]) == Cover([joint])
  {
    assert [a, b] == [a] + [b];
    CoverAppend([a], [b]);
    CoverOne(a);
    CoverOne(b);
    CoverOne(joint);
  }

  /** The free flag covers nothing. */
  lemma CoverMark(bs: seq<Block>, i: nat, free: bool)
    requires i < |bs|
    ensures Cover(bs[i := bs[i].(free := free)]) == Cover(bs)
  {
    var b, b' := bs[i], bs[i].(free := free);
    CoverOne(b);
    CoverOne(b');
    hide Cover;
    CoverReplace(bs[..i], [b], [b'], bs[i + 1..]);
    assert bs == bs[..i] + [b] + bs[i + 1..];
    assert bs[i := b'] == bs[..i] + [b'] + bs[i + 1..];
  }

  lemma SplitCover(bs: seq<Block>, i: nat, x: Block, y: Block)
    requires i < |bs| && End(x) == y.addr && x.addr == bs[i].addr && bs[i].size == x.size + HEADER + y.size
    ensures Cover(bs[..i] + [x, y] + bs[i + 1..]) == Cover(bs)
  {
    CoverTwo(x, y, bs[i]);
    hide Cover;
    CoverReplace(bs[..i], [bs[i]], [x, y], bs[i + 1..]);
    assert bs == bs[..i] + [bs[i]] + bs[i + 1..];
  }

  lemma PlaceCover(bs: seq<Block>, i: nat, size: nat)
    requires i < |bs| && bs[i].size >= size
    ensures Cover(Place(bs, i, size)) == Cover(bs)
  {
    hide Cover;
    var b := bs[i];
    if Splits(b, size) {
      var x, y := Block(b.addr, size, false), Block(b.addr + HEADER + size, b.size - size - HEADER, true);
      SplitCover(bs, i, x, y);
      assert Place(bs, i, size) == bs[..i] + [x, y] + bs[i + 1..];
    } else {
      CoverMark(bs, i, false);
    }
  }

  lemma JoinCover(bs: seq<Block>, i: nat)
    ensures Cover(Join(bs, i)) == Cover(bs)
  {
    if Joins(bs, i) {
      var joint := Block(bs[i].addr, bs[i].size + HEADER + bs[i + 1].size, true);
      CoverTwo(bs[i], bs[i + 1], joint);
      CoverReplace(bs[..i], [bs[i], bs[i + 1]], [joint], bs[i + 2..]);
      assert bs == bs[..i] + [bs[i], bs[i + 1]] + bs[i + 2..];
    }
  }

  lemma FrameBlocksAppend(fs: seq<nat>, f: nat)
    ensures FrameBlocks(fs + [f]) == FrameBlocks(fs) + [Block(f, LARGEST, true)]
  {
  }

  /** kmalloc keeps the tiling; the frames grow by `frame` exactly when nothing fitted. */
  lemma MallocTiles(bs: seq<Block>, fs: seq<nat>, size: nat, frame: nat)
    requires Tiles(bs, fs) && size <= LARGEST
    ensures Tiles(Malloc(bs, size, frame), if FirstFit(bs, size) < |bs| then fs else fs + [frame])
  {
    var i := FirstFit(bs, size);
    if i < |bs| {
      PlaceCover(bs, i, size);
    } else {
      var last := Block(frame, LARGEST, true);
      FrameBlocksAppend(fs, frame);
      CoverAppend(bs, [last]);
      CoverAppend(FrameBlocks(fs), [last]);
      PlaceCover(Grow(bs, frame), i, size);
    }
  }

  lemma FreeOnlyCover(bs: seq<Block>, i: nat)
    requires i < |bs|
    ensures Cover(FreeOnly(bs, i)) == Cover(bs)
  {
    CoverMark(bs, i, true);
    JoinCover(bs[i := bs[i].(free := true)], i);
  }

  /** kfree keeps the tiling of the same frames. */
  lemma FreeTiles(bs: seq<Block>, fs: seq<nat>, i: nat)
    requires Tiles(bs, fs) && i < |bs|
    ensures Tiles(Free(bs, i), fs)
  {
    FreeOnlyCover(bs, i);
    if i > 0 { JoinCover(FreeOnly(bs, i), i - 1); }
  }

  // ----- what tiling means -----

  /** Where block `i` starts in the cover. */
  function Offset(bs: seq<Block>, i: nat): nat
    requires i <= |bs|
  {
    |Cover(bs[..i])|
  }

  lemma CoverAt(bs: seq<Block>, i: nat, d: nat)
    requires i < |bs| && d < HEADER + bs[i].size
    ensures Offset(bs, i) + d < |Cover(bs)| && Cover(bs)[Offset(bs, i) + d] == bs[i].addr + d
    ensures Offset(bs, i + 1) == Offset(bs, i) + HEADER + bs[i].size
  {
    assert bs == bs[..i] + ([bs[i]] + bs[i + 1..]);
    CoverAppend(bs[..i], [bs[i]] + bs[i + 1..]);
    CoverAppend([bs[i]], bs[i + 1..]);
    CoverOne(bs[i]);
    assert bs[..i + 1] == bs[..i] + [bs[i]];
    CoverAppend(bs[..i], [bs[i]]);
  }

  lemma {:induction false} OffsetMonotone(bs: seq<Block>, i: nat, j: nat)
    requires i < j <= |bs|
    ensures Offset(bs, i) + HEADER + bs[i].size <= Offset(bs, j)
    decreases j
  {
    CoverAt(bs, i, 0);
    if i + 1 < j {
      OffsetMonotone(bs, i, j - 1);
      CoverAt(bs, j - 1, 0);
    }
  }

  lemma {:induction false} FrameOffset(fs: seq<nat>, i: nat)
    requires i <= |fs|
    ensures Offset(FrameBlocks(fs), i) == FRAME * i
    decreases i
  {
    if i > 0 {
      FrameOffset(fs, i - 1);
      CoverAt(FrameBlocks(fs), i - 1, 0);
    } else {
      assert FrameBlocks(fs)[..0] == [];
    }
  }

  function Total(bs: seq<Block>): nat {
    if bs == [] then 0 else HEADER + bs[0].size + Total(bs[1..])
  }

  lemma {:induction false} TotalIsCover(bs: seq<Block>)
    ensures Total(bs) == |Cover(bs)|
    decreases |bs|
  {
    if bs != [] { TotalIsCover(bs[1..]); }
  }

  /** Headers and sizes of all blocks add up to 4096 per frame. */
  lemma SizesAddUp(bs: seq<Block>, fs: seq<nat>)
    requires Tiles(bs, fs)
    ensures |Cover(bs)| == FRAME * |fs|
    ensures Total(bs) == FRAME * |fs|
  {
    FrameOffset(fs, |fs|);
    assert FrameBlocks(fs)[..|fs|] == FrameBlocks(fs);
    TotalIsCover(bs);
  }

  /** Every address of the cover is the one the frame at that offset has there. */
  lemma FrameAddress(fs: seq<nat>, o: nat)
    requires o < FRAME * |fs|
    ensures o < |Cover(FrameBlocks(fs))| && Cover(FrameBlocks(fs))[o] == fs[o / FRAME] + o % FRAME
  {
    FrameOffset(fs, o / FRAME);
    CoverAt(FrameBlocks(fs), o / FRAME, o % FRAME);
  }

  /** No address is covered twice. */
  lemma NoAddressTwice(fs: seq<nat>, o: nat, p: nat)
    requires GoodFrames(fs) && o < p < FRAME * |fs|
    ensures o < |Cover(FrameBlocks(fs))| && p < |Cover(FrameBlocks(fs))|
    ensures Cover(FrameBlocks(fs))[o] != Cover(FrameBlocks(fs))[p]
  {
    FrameAddress(fs, o);
    FrameAddress(fs, p);
    var i, j := o / FRAME, p / FRAME;
    var x, y := fs[i] / FRAME, fs[j] / FRAME;
    assert fs[i] == FRAME * x && fs[j] == FRAME * y;
    assert o == FRAME * i + o % FRAME && p == FRAME * j + p % FRAME;
    assert i == j || x != y;
  }

  /** Blocks of a tiling are pairwise disjoint, headers and payloads alike. */
  lemma BlocksDisjoint(bs: seq<Block>, fs: seq<nat>, i: nat, j: nat)
    requires Tiles(bs, fs) && GoodFrames(fs) && i < j < |bs|
    ensures End(bs[i]) <= bs[j].addr || End(bs[j]) <= bs[i].addr
  {
    if bs[j].addr < End(bs[i]) && bs[i].addr < End(bs[j]) {
      var x := if bs[i].addr >= bs[j].addr then bs[i].addr else bs[j].addr;
      var o, p := Offset(bs, i) + (x - bs[i].addr), Offset(bs, j) + (x - bs[j].addr);
      CoverAt(bs, i, x - bs[i].addr);
      CoverAt(bs, j, x - bs[j].addr);
      OffsetMonotone(bs, i, j);
      SizesAddUp(bs, fs);
      NoAddressTwice(fs, o, p);
    }
  }

  ghost predicate InFrame(x: int, fs: seq<nat>) {
    exists k :: 0 <= k < |fs| && fs[k] <= x < fs[k] + FRAME
  }

  ghost predicate WithinFrames(b: Block, fs: seq<nat>) {
    forall x :: b.addr <= x < End(b) ==> InFrame(x, fs)
  }

  /** Every byte of every block lies in an acquired frame. */
  lemma BlockInFrames(bs: seq<Block>, fs: seq<nat>, i: nat, d: nat)
    requires Tiles(bs, fs) && GoodFrames(fs) && i < |bs| && d < HEADER + bs[i].size
    ensures InFrame(bs[i].addr + d, fs)
  {
    CoverAt(bs, i, d);
    SizesAddUp(bs, fs);
    var o := Offset(bs, i) + d;
    FrameAddress(fs, o);
    assert fs[o / FRAME] <= bs[i].addr + d < fs[o / FRAME] + FRAME;
  }

  lemma AddressesNonZero(bs: seq<Block>, fs: seq<nat>, i: nat)
    requires Tiles(bs, fs) && GoodFrames(fs) && i < |bs|
    ensures bs[i].addr != 0
  {
    BlockInFrames(bs, fs, i, 0);
    var k :| 0 <= k < |fs| && fs[k] <= bs[i].addr < fs[k] + FRAME;
    assert fs[k] != 0;
  }

  // ----- whole runs -----

  datatype Op = Allocate(size: nat, frame: nat) | Release(index: nat)

  function Apply(c: Chain, op: Op): (r: Chain)
    requires Paired(c) && if op.Allocate? then op.size <= LARGEST else op.index < |c.blocks|
    ensures Paired(r)
  {
    match op
    case Allocate(size, f) => MallocChain(c, size, f)
    case Release(i) => FreeChain(c, i)
  }

  function Acquired(bs: seq<Block>, fs: seq<nat>, op: Op): seq<nat> {
    if op.Allocate? && FirstFit(bs, op.size) == |bs| then fs + [op.frame] else fs
  }

  /** Sizes kmalloc serves, frames the allocator has not handed to the heap before, and blocks of the
      chain; a block that is free already may be freed once more. */
  predicate Allowed(bs: seq<Block>, fs: seq<nat>, op: Op) {
    match op
    case Allocate(size, f) => 1 <= size <= LARGEST && f % FRAME == 0 && f != 0 && f !in fs
    case Release(i) => i < |bs|
  }

  predicate Legal(c: Chain, fs: seq<nat>, ops: seq<Op>)
    requires Paired(c)
    decreases |ops|
  {
    ops == [] ||
    (Allowed(c.blocks, fs, ops[0]) && Legal(Apply(c, ops[0]), Acquired(c.blocks, fs, ops[0]), ops[1..]))
  }

  function After(c: Chain, fs: seq<nat>, ops: seq<Op>): (r: (Chain, seq<nat>))
    requires Paired(c) && Legal(c, fs, ops)
    ensures Paired(r.0)
    decreases |ops|
  {
    if ops == [] then (c, fs)
    else After(Apply(c, ops[0]), Acquired(c.blocks, fs, ops[0]), ops[1..])
  }

  const NoBlocks := Chain([], [])

  lemma StepTiles(c: Chain, fs: seq<nat>, op: Op)
    requires Paired(c) && Tiles(c.blocks, fs)
    requires if op.Allocate? then op.size <= LARGEST else op.index < |c.blocks|
    ensures Tiles(Apply(c, op).blocks, Acquired(c.blocks, fs, op))
  {
    match op
    case Allocate(size, f) => MallocTiles(c.blocks, fs, size, f);
    case Release(i) => FreeTiles(c.blocks, fs, i); FreeOnlyCover(c.blocks, i);
  }

  lemma AcquiredGood(bs: seq<Block>, fs: seq<nat>, op: Op)
    requires GoodFrames(fs) && Allowed(bs, fs, op)
    ensures GoodFrames(Acquired(bs, fs, op))
  {
  }

  lemma {:induction false} RunTiles(c: Chain, fs: seq<nat>, ops: seq<Op>)
    requires Paired(c) && Tiles(c.blocks, fs) && GoodFrames(fs) && Legal(c, fs, ops)
    ensures var (r, gs) := After(c, fs, ops); Tiles(r.blocks, gs) && GoodFrames(gs)
    decreases |ops|
  {
    if ops != [] {
      StepTiles(c, fs, ops[0]);
      AcquiredGood(c.blocks, fs, ops[0]);
      hide Apply, Acquired, Tiles, GoodFrames, Allowed;
      RunTiles(Apply(c, ops[0]), Acquired(c.blocks, fs, ops[0]), ops[1..]);
    }
  }

  /** Over every run from the empty heap: the chain tiles the acquired frames, headers and sizes
      add up to 4096 per frame, blocks are pairwise disjoint, and every byte of every block lies
      in a frame the heap has acquired. */
  lemma HeapStaysSound(ops: seq<Op>)
    requires Legal(NoBlocks, [], ops)
    ensures var (r, gs) := After(NoBlocks, [], ops);
            var rs := r.blocks;
            && Tiles(rs, gs) && Total(rs) == FRAME * |gs|
            && (forall i, j :: 0 <= i < j < |rs| ==> End(rs[i]) <= rs[j].addr || End(rs[j]) <= rs[i].addr)
            && (forall i :: 0 <= i < |rs| ==> WithinFrames(rs[i], gs))
  {
    RunTiles(NoBlocks, [], ops);
    var (r, gs) := After(NoBlocks, [], ops);
    var rs := r.blocks;
    hide Legal, After, Tiles;
    SizesAddUp(rs, gs);
    forall i, j | 0 <= i < j < |rs| ensures End(rs[i]) <= rs[j].addr || End(rs[j]) <= rs[i].addr {
      BlocksDisjoint(rs, gs, i, j);
    }
    forall i | 0 <= i < |rs| ensures WithinFrames(rs[i], gs) {
      forall x | rs[i].addr <= x < End(rs[i]) ensures InFrame(x, gs) { BlockInFrames(rs, gs, i, x - rs[i].addr); }
    }
  }

  lemma NextSteps(f: nat, c2: Chain, c3: Chain, c4: Chain)
    requires f % FRAME == 0 && f != 0
    requires c2 == Chain([Block(f, 100, false), Block(f + 120, 100, false), Block(f + 240, 3836, true)],
                         [0, f, f + 120])
    requires c3 == Chain([Block(f, 100, true), Block(f + 120, 100, false), Block(f + 240, 3836, true)], c2.links)
    requires c4 == Chain([Block(f, 50, false), Block(f + 70, 30, true), Block(f + 120, 100, false),
                          Block(f + 240, 3836, true)], [0, f, f, f + 120])
    ensures Allowed(c2.blocks, [f], Release(0)) && Acquired(c2.blocks, [f], Release(0)) == [f]
    ensures Apply(c2, Release(0)) == c3
    ensures Allowed(c3.blocks, [f], Allocate(50, f + FRAME)) && Acquired(c3.blocks, [f], Allocate(50, f + FRAME)) == [f]
    ensures Apply(c3, Allocate(50, f + FRAME)) == c4
    ensures Allowed(c4.blocks, [f], Release(2))
    ensures Paired(c4) && !Exact(c4, 2) && Joins(FreeChain(c4, 2).blocks, 1)
  {
  }

  lemma FirstSteps(f: nat, c1: Chain, c2: Chain)
    requires f % FRAME == 0 && f != 0
    requires c1 == Chain([Block(f, 100, false), Block(f + 120, 3956, true)], [0, f])
    requires c2 == Chain([Block(f, 100, false), Block(f + 120, 100, false), Block(f + 240, 3836, true)],
                         [0, f, f + 120])
    ensures Paired(NoBlocks) && Allowed([], [], Allocate(100, f)) && NoBlocks.blocks == []
    ensures Allowed(c1.blocks, [f], Allocate(100, f + FRAME))
    ensures Apply(NoBlocks, Allocate(100, f)) == c1 && Acquired([], [], Allocate(100, f)) == [f]
    ensures Apply(c1, Allocate(100, f + FRAME)) == c2 && Acquired(c1.blocks, [f], Allocate(100, f + FRAME)) == [f]
  {
    assert FirstFit(c1.blocks[1..], 100) == 0 && FirstFit(c1.blocks, 100) == 1;
  }

  /** The five states of that run. */
  lemma StaleRun(f: nat, a: Op, b: Op, d: Op, e: Op) returns (cs: seq<Chain>)
    requires f % FRAME == 0 && f != 0
    requires a == Allocate(100, f) && b == Allocate(100, f + FRAME) && d == Release(0) && e == Allocate(50, f + FRAME)
    ensures |cs| == 5 && cs[0] == NoBlocks && forall i :: 0 <= i < 5 ==> Paired(cs[i])
    ensures Allowed(cs[0].blocks, [], a) && Apply(cs[0], a) == cs[1] && Acquired(cs[0].blocks, [], a) == [f]
    ensures Allowed(cs[1].blocks, [f], b) && Apply(cs[1], b) == cs[2] && Acquired(cs[1].blocks, [f], b) == [f]
    ensures Allowed(cs[2].blocks, [f], d) && Apply(cs[2], d) == cs[3] && Acquired(cs[2].blocks, [f], d) == [f]
    ensures Allowed(cs[3].blocks, [f], e) && Apply(cs[3], e) == cs[4] && Acquired(cs[3].blocks, [f], e) == [f]
    ensures 2 < |cs[4].blocks| && Allowed(cs[4].blocks, [f], Release(2))
    ensures !Exact(cs[4], 2) && Joins(FreeChain(cs[4], 2).blocks, 1)
  {
    var c1 := Chain([Block(f, 100, false), Block(f + 120, 3956, true)], [0, f]);
    var c2 := Chain([Block(f, 100, false), Block(f + 120, 100, false), Block(f + 240, 3836, true)], [0, f, f + 120]);
    var c3 := Chain([Block(f, 100, true), Block(f + 120, 100, false), Block(f + 240, 3836, true)], c2.links);
    var c4 := Chain([Block(f, 50, false), Block(f + 70, 30, true), Block(f + 120, 100, false),
                     Block(f + 240, 3836, true)], [0, f, f, f + 120]);
    hide *;
    FirstSteps(f, c1, c2);
    NextSteps(f, c2, c3, c4);
    cs := [NoBlocks, c1, c2, c3, c4];
  }

  lemma NoMore(c: Chain, fs: seq<nat>)
    requires Paired(c)
    ensures Legal(c, fs, []) && After(c, fs, []) == (c, fs)
  {
  }

  lemma OneMore(c: Chain, fs: seq<nat>, op: Op, rest: seq<Op>)
    requires Paired(c) && Allowed(c.blocks, fs, op)
    requires Legal(Apply(c, op), Acquired(c.blocks, fs, op), rest)
    ensures Legal(c, fs, [op] + rest)
    ensures After(c, fs, [op] + rest) == After(Apply(c, op), Acquired(c.blocks, fs, op), rest)
  {
    hide Apply, Acquired;
    assert ([op] + rest)[1..] == rest;
  }

  /** Four operations, the first of which takes the only frame. */
  lemma FourSteps(cs: seq<Chain>, fs: seq<nat>, gs: seq<nat>, a: Op, b: Op, d: Op, e: Op)
    requires |cs| == 5 && forall i :: 0 <= i < 5 ==> Paired(cs[i])
    requires Allowed(cs[0].blocks, fs, a) && Apply(cs[0], a) == cs[1] && Acquired(cs[0].blocks, fs, a) == gs
    requires Allowed(cs[1].blocks, gs, b) && Apply(cs[1], b) == cs[2] && Acquired(cs[1].blocks, gs, b) == gs
    requires Allowed(cs[2].blocks, gs, d) && Apply(cs[2], d) == cs[3] && Acquired(cs[2].blocks, gs, d) == gs
    requires Allowed(cs[3].blocks, gs, e) && Apply(cs[3], e) == cs[4] && Acquired(cs[3].blocks, gs, e) == gs
    ensures Legal(cs[0], fs, [a, b, d, e]) && After(cs[0], fs, [a, b, d, e]) == (cs[4], gs)
  {
    hide *;
    assert [e] + [] == [e] && [d] + [e] == [d, e] && [b] + [d, e] == [b, d, e] && [a] + [b, d, e] == [a, b, d, e];
    NoMore(cs[4], gs);
    OneMore(cs[3], gs, e, []);
    OneMore(cs[2], gs, d, [e]);
    OneMore(cs[1], gs, b, [d, e]);
    OneMore(cs[0], fs, a, [b, d, e]);
  }

  lemma {:induction false} LegalSnoc(c: Chain, fs: seq<nat>, ops: seq<Op>, last: Op)
    requires Paired(c) && Legal(c, fs, ops)
    requires Allowed(After(c, fs, ops).0.blocks, After(c, fs, ops).1, last)
    ensures Legal(c, fs, ops + [last])
    decreases |ops|
  {
    hide Apply, Acquired;
    if ops != [] {
      assert (ops + [last])[0] == ops[0] && (ops + [last])[1..] == ops[1..] + [last];
      LegalSnoc(Apply(c, ops[0]), Acquired(c.blocks, fs, ops[0]), ops[1..], last);
    } else {
      assert ops + [last] == [last] && [last][1..] == [];
    }
  }

  /** A block with a successor does get split, and freeing that successor then leaves it apart from
      the free block it touches: two allocations, the first freed, a smaller one in its place, and
      the second freed. */
  lemma StaleLinkHappens(f: nat)
    requires f % FRAME == 0 && f != 0
    ensures var ops := [Allocate(100, f), Allocate(100, f + FRAME), Release(0), Allocate(50, f + FRAME)];
            && Legal(NoBlocks, [], ops + [Release(2)])
            && Legal(NoBlocks, [], ops) && var c := After(NoBlocks, [], ops).0;
            && 2 < |c.blocks| && !Exact(c, 2) && Joins(FreeChain(c, 2).blocks, 1)
  {
    hide *;
    var a, b, d, e := Allocate(100, f), Allocate(100, f + FRAME), Release(0), Allocate(50, f + FRAME);
    var cs := StaleRun(f, a, b, d, e);
    FourSteps(cs, [], [f], a, b, d, e);
    LegalSnoc(NoBlocks, [], [a, b, d, e], Release(2));
  }
}
