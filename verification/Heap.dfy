/** kmalloc and kfree of pelikanOS/src/heap.c as they run: headers in memory, linked by address. */
module Heap {
  import opened HeapBlocks

  const HEAP_MAGIC_ALLOC: nat := 0xDEAD_BEEF
  const HEAP_MAGIC_FREE: nat := 0xFEEE_FEEE

  /** block_t; null is address 0. */
  datatype Header = Header(size: nat, free: bool, magic: nat, next: nat, prev: nat)

  /** Every header ever written; one that was joined away stays readable at its address. */
  type Memory = map<nat, Header>

  function Magic(free: bool): nat { if free then HEAP_MAGIC_FREE else HEAP_MAGIC_ALLOC }

  ghost predicate Shows(mem: Memory, bs: seq<Block>, i: nat)
    requires i < |bs|
  {
    && bs[i].addr in mem
    && mem[bs[i].addr].size == bs[i].size && mem[bs[i].addr].free == bs[i].free
    && mem[bs[i].addr].magic == Magic(bs[i].free)
    && mem[bs[i].addr].next == AddrOrNull(bs, i + 1)
  }

  /** The stamps kfree looks at. */
  lemma MagicExact(free: bool)
    ensures Magic(free) == if free then 0xFEEE_FEEE else 0xDEAD_BEEF
  {
  }

  ghost predicate Chained(mem: Memory, bs: seq<Block>) {
    forall i :: 0 <= i < |bs| ==> Shows(mem, bs, i)
  }

  function PrevAt(mem: Memory, addr: nat): nat {
    if addr in mem then mem[addr].prev else 0
  }

  /** The block list with the `prev` fields found along it. */
  ghost function ViewOf(mem: Memory, bs: seq<Block>): (c: Chain)
    ensures Paired(c) && c.blocks == bs
    ensures forall k :: 0 <= k < |bs| ==> c.links[k] == PrevAt(mem, bs[k].addr)
  {
    Chain(bs, seq(|bs|, k requires 0 <= k < |bs| => PrevAt(mem, bs[k].addr)))
  }

  // ----- stale links are harmless -----

  /** The header at `a`, in the chain or not, is that of a free block ending where `b` starts. */
  predicate Touches(mem: Memory, a: nat, b: nat) {
    a in mem && mem[a].free && a + HEADER + mem[a].size == b
  }

  /** From `a` on, the covered addresses count up until `b` follows. */
  ghost predicate RunsTo(cover: seq<nat>, i: nat, j: nat, a: nat, b: nat)
    requires i < j < |cover|
  {
    cover[i] == a && cover[j] == b && forall p :: i <= p < j ==> cover[p] == a + (p - i)
  }

  ghost predicate Stretch(cover: seq<nat>, a: nat, b: nat) {
    exists i: nat, j: nat :: i < j < |cover| && RunsTo(cover, i, j, a, b)
  }

  /** The link of block `k` leads back into the stretch of memory right before the block; and if the
      header there passes for a free block that touches it, it is the predecessor. */
  ghost predicate LinkTidy(mem: Memory, bs: seq<Block>, k: nat)
    requires k < |bs|
  {
    var a, b := PrevAt(mem, bs[k].addr), bs[k].addr;
    if k == 0 then a == 0
    else a in mem && Stretch(Cover(bs), a, b) && (Touches(mem, a, b) ==> a == bs[k - 1].addr)
  }

  ghost predicate Tidy(mem: Memory, bs: seq<Block>) {
    forall k :: 0 <= k < |bs| ==> LinkTidy(mem, bs, k)
  }

  ghost predicate IsHead(bs: seq<Block>, a: nat) {
    exists i :: 0 <= i < |bs| && bs[i].addr == a
  }

  lemma HeadOf(bs: seq<Block>, i: nat, a: nat)
    requires i < |bs| && bs[i].addr == a
    ensures IsHead(bs, a)
  {
  }

  /** Headers that are not in the chain are as they were. */
  ghost predicate DeadKept(mem: Memory, mem': Memory, bs': seq<Block>) {
    forall a :: a in mem ==>
      a in mem' && (IsHead(bs', a) || (mem'[a].free == mem[a].free && mem'[a].size == mem[a].size))
  }

  lemma StretchLonger(c: seq<nat>, d: seq<nat>, a: nat, b: nat)
    requires c <= d && Stretch(c, a, b)
    ensures Stretch(d, a, b)
  {
    var i: nat, j: nat :| i < j < |c| && RunsTo(c, i, j, a, b);
    assert RunsTo(d, i, j, a, b);
  }

  lemma NeighboursStretch(bs: seq<Block>, k: nat)
    requires 0 < k < |bs|
    ensures Stretch(Cover(bs), bs[k - 1].addr, bs[k].addr)
  {
    hide Offset, Cover;
    var i, j, a := Offset(bs, k - 1), Offset(bs, k), bs[k - 1].addr;
    CoverAt(bs, k - 1, 0);
    CoverAt(bs, k, 0);
    forall p | i <= p < j ensures Cover(bs)[p] == a + (p - i) { CoverAt(bs, k - 1, p - i); }
    assert RunsTo(Cover(bs), i, j, a, bs[k].addr);
  }

  /** An address is covered at one place only. */
  lemma OnePlace(bs: seq<Block>, fs: seq<nat>, p: nat, q: nat)
    requires Tiles(bs, fs) && GoodFrames(fs) && p < |Cover(bs)| && q < |Cover(bs)| && Cover(bs)[p] == Cover(bs)[q]
    ensures p == q
  {
    SizesAddUp(bs, fs);
    if p < q { NoAddressTwice(fs, p, q); }
    if q < p { NoAddressTwice(fs, q, p); }
  }

  /** A block of the chain that ends where block `k` starts, in the stretch before it, is the
      predecessor. */
  lemma TouchingIsPredecessor(bs: seq<Block>, fs: seq<nat>, i: nat, k: nat)
    requires Tiles(bs, fs) && GoodFrames(fs) && i < |bs| && k < |bs|
    requires Stretch(Cover(bs), bs[i].addr, bs[k].addr) && End(bs[i]) == bs[k].addr
    ensures i == k - 1
  {
    hide Tiles, GoodFrames, Cover, Offset;
    var c := Cover(bs);
    var o: nat, q: nat :| o < q < |c| && RunsTo(c, o, q, bs[i].addr, bs[k].addr);
    CoverAt(bs, i, 0);
    CoverAt(bs, k, 0);
    OnePlace(bs, fs, o, Offset(bs, i));
    OnePlace(bs, fs, q, Offset(bs, k));
    if k < i { OffsetMonotone(bs, k, i); }
    if i + 1 < k {
      OffsetMonotone(bs, i + 1, k);
      OnePlace(bs, fs, Offset(bs, i + 1), q);
    }
  }

  /** A link to a header of the chain is tidy. */
  lemma HeadTidy(mem: Memory, bs: seq<Block>, fs: seq<nat>, k: nat, a: nat)
    requires Chained(mem, bs) && Tiles(bs, fs) && GoodFrames(fs) && 0 < k < |bs|
    requires a == PrevAt(mem, bs[k].addr) && IsHead(bs, a) && Stretch(Cover(bs), a, bs[k].addr)
    ensures LinkTidy(mem, bs, k)
  {
    hide Tiles, GoodFrames, Stretch, Cover;
    var i :| 0 <= i < |bs| && bs[i].addr == a;
    assert Shows(mem, bs, i);
    if Touches(mem, a, bs[k].addr) { TouchingIsPredecessor(bs, fs, i, k); }
  }

  /** An exact link is tidy. */
  lemma ExactTidy(mem: Memory, bs: seq<Block>, fs: seq<nat>, k: nat)
    requires Chained(mem, bs) && Tiles(bs, fs) && GoodFrames(fs) && k < |bs|
    requires PrevAt(mem, bs[k].addr) == AddrOrNull(bs, k - 1)
    ensures LinkTidy(mem, bs, k)
  {
    if k > 0 {
      NeighboursStretch(bs, k);
      hide Tiles, GoodFrames, Stretch, Cover;
      assert Shows(mem, bs, k - 1) && bs[k - 1].addr == PrevAt(mem, bs[k].addr);
      HeadTidy(mem, bs, fs, k, bs[k - 1].addr);
    }
  }

  /** A link that is not rewritten stays tidy, unless it was exact and its header is joined away. */
  lemma KeptTidy(mem: Memory, bs: seq<Block>, k: nat, mem': Memory, bs': seq<Block>, fs': seq<nat>, k': nat)
    requires Chained(mem', bs') && Tiles(bs', fs') && GoodFrames(fs') && Cover(bs) <= Cover(bs')
    requires k < |bs| && k' < |bs'| && LinkTidy(mem, bs, k) && DeadKept(mem, mem', bs') && (k == 0 <==> k' == 0)
    requires bs'[k'].addr == bs[k].addr && PrevAt(mem', bs[k].addr) == PrevAt(mem, bs[k].addr)
    requires k > 0 ==> IsHead(bs', bs[k - 1].addr)
    ensures LinkTidy(mem', bs', k')
  {
    if k > 0 {
      var a := PrevAt(mem, bs[k].addr);
      StretchLonger(Cover(bs), Cover(bs'), a, bs[k].addr);
      hide Tiles, GoodFrames, Stretch, Cover, Chained;
      if IsHead(bs', a) { HeadTidy(mem', bs', fs', k', a); }
    }
  }

  // ----- what each change of the memory keeps -----

  /** The chain is right, it tiles the frames, and stale links are harmless. */
  ghost predicate Good(mem: Memory, bs: seq<Block>, fs: seq<nat>) {
    Chained(mem, bs) && Tiles(bs, fs) && GoodFrames(fs) && Tidy(mem, bs)
  }

  /** Every header has its own address, and none is null. */
  ghost predicate Apart(bs: seq<Block>) {
    && (forall i :: 0 <= i < |bs| ==> bs[i].addr != 0)
    && (forall i, j :: 0 <= i < j < |bs| ==> bs[i].addr != bs[j].addr)
  }

  lemma TilesApart(bs: seq<Block>, fs: seq<nat>)
    requires Tiles(bs, fs) && GoodFrames(fs)
    ensures Apart(bs)
  {
    forall i | 0 <= i < |bs| ensures bs[i].addr != 0 { AddressesNonZero(bs, fs, i); }
    forall i, j | 0 <= i < j < |bs| ensures bs[i].addr != bs[j].addr { BlocksDisjoint(bs, fs, i, j); }
  }

  lemma ChainAt(mem: Memory, bs: seq<Block>, i: nat)
    requires Chained(mem, bs) && i < |bs|
    ensures bs[i].addr in mem && mem[bs[i].addr].size == bs[i].size && mem[bs[i].addr].free == bs[i].free
    ensures mem[bs[i].addr].next == AddrOrNull(bs, i + 1)
  {
    assert Shows(mem, bs, i);
  }

  lemma NullOnlyAtEnd(bs: seq<Block>, i: nat)
    requires Apart(bs) && i <= |bs|
    ensures AddrOrNull(bs, i) == 0 <==> i == |bs|
  {
  }

  lemma ApartAt(bs: seq<Block>, i: nat, j: nat)
    requires Apart(bs) && i < |bs| && j < |bs| && i != j
    ensures bs[i].addr != bs[j].addr
  {
  }

  // A fresh frame behind the last block.

  ghost predicate GrowMemory(mem: Memory, mem': Memory, bs: seq<Block>, frame: nat) {
    var last := AddrOrNull(bs, |bs| - 1);
    var m := mem[frame := Header(LARGEST, true, HEAP_MAGIC_FREE, 0, last)];
    (last != 0 ==> last in m) && mem' == if last != 0 then m[last := m[last].(next := frame)] else m
  }

  lemma GrowTiles(bs: seq<Block>, fs: seq<nat>, frame: nat)
    requires Tiles(bs, fs) && GoodFrames(fs) && frame % FRAME == 0 && frame != 0 && frame !in fs
    ensures Tiles(Grow(bs, frame), fs + [frame]) && GoodFrames(fs + [frame]) && Cover(bs) <= Cover(Grow(bs, frame))
  {
    var last := Block(frame, LARGEST, true);
    FrameBlocksAppend(fs, frame);
    CoverAppend(bs, [last]);
    CoverAppend(FrameBlocks(fs), [last]);
  }

  lemma GrowLinked(mem: Memory, mem': Memory, bs: seq<Block>, frame: nat)
    requires Chained(mem, bs) && Apart(Grow(bs, frame)) && GrowMemory(mem, mem', bs, frame)
    ensures Chained(mem', Grow(bs, frame))
    ensures ViewOf(mem', Grow(bs, frame)) == GrowChain(ViewOf(mem, bs), frame)
    ensures DeadKept(mem, mem', Grow(bs, frame))
  {
    var r, n := Grow(bs, frame), |bs|;
    assert r[n].addr == frame;
    if n > 0 { assert r[n - 1] == bs[n - 1] && r[n - 1].addr != r[n].addr; }
    forall i | 0 <= i < |r|
      ensures Shows(mem', r, i) && PrevAt(mem', r[i].addr) == GrowChain(ViewOf(mem, bs), frame).links[i]
    {
      if i < n {
        assert Shows(mem, bs, i) && r[i] == bs[i] && r[i].addr != r[n].addr;
        if i < n - 1 { assert r[i].addr != r[n - 1].addr; }
      }
    }
  }

  lemma GrowKeeps(mem: Memory, mem': Memory, bs: seq<Block>, fs: seq<nat>, frame: nat)
    requires Good(mem, bs, fs) && frame % FRAME == 0 && frame != 0 && frame !in fs && GrowMemory(mem, mem', bs, frame)
    ensures Good(mem', Grow(bs, frame), fs + [frame])
    ensures ViewOf(mem', Grow(bs, frame)) == GrowChain(ViewOf(mem, bs), frame)
  {
    var r := Grow(bs, frame);
    GrowTiles(bs, fs, frame);
    hide GoodFrames, Tiles, Cover, GrowMemory, DeadKept;
    TilesApart(r, fs + [frame]);
    GrowLinked(mem, mem', bs, frame);
    hide Chained, Apart;
    var v, w := ViewOf(mem, bs), ViewOf(mem', r);
    forall k | 0 <= k < |r| ensures LinkTidy(mem', r, k) {
      if k < |bs| {
        assert w.links[k] == v.links[k];
        if k > 0 { assert r[k - 1].addr == bs[k - 1].addr; }
        KeptTidy(mem, bs, k, mem', r, fs + [frame], k);
      } else {
        ExactTidy(mem', r, fs + [frame], k);
      }
    }
  }

  // The free flag of one block.

  ghost predicate MarkMemory(mem: Memory, mem': Memory, bs: seq<Block>, i: nat, free: bool)
    requires i < |bs|
  {
    bs[i].addr in mem && mem' == mem[bs[i].addr := mem[bs[i].addr].(free := free, magic := Magic(free))]
  }

  lemma MarkLinked(mem: Memory, mem': Memory, bs: seq<Block>, i: nat, free: bool)
    requires Chained(mem, bs) && Apart(bs) && i < |bs| && MarkMemory(mem, mem', bs, i, free)
    ensures var r := MarkChain(ViewOf(mem, bs), i, free);
            Chained(mem', r.blocks) && ViewOf(mem', r.blocks) == r && DeadKept(mem, mem', r.blocks)
  {
    var r := bs[i := bs[i].(free := free)];
    assert r[i].addr == bs[i].addr;
    forall k | 0 <= k < |bs| ensures Shows(mem', r, k) && PrevAt(mem', r[k].addr) == PrevAt(mem, bs[k].addr) {
      assert Shows(mem, bs, k) && AddrOrNull(r, k + 1) == AddrOrNull(bs, k + 1);
    }
  }

  lemma MarkKeeps(mem: Memory, mem': Memory, bs: seq<Block>, fs: seq<nat>, i: nat, free: bool)
    requires Good(mem, bs, fs) && i < |bs| && MarkMemory(mem, mem', bs, i, free)
    ensures var r := MarkChain(ViewOf(mem, bs), i, free); Good(mem', r.blocks, fs) && ViewOf(mem', r.blocks) == r
  {
    var r := bs[i := bs[i].(free := free)];
    CoverMark(bs, i, free);
    TilesApart(bs, fs);
    hide GoodFrames, Cover, MarkMemory, DeadKept;
    MarkLinked(mem, mem', bs, i, free);
    hide Chained, Apart;
    forall k | 0 <= k < |r| ensures LinkTidy(mem', r, k) {
      assert ViewOf(mem', r).links[k] == ViewOf(mem, bs).links[k];
      if k > 0 { assert r[k - 1].addr == bs[k - 1].addr; }
      KeptTidy(mem, bs, k, mem', r, fs, k);
    }
  }

  // A split.

  /** The memory after a split of block `i`, whose header was `h`. */
  ghost predicate SplitMemory(mem: Memory, mem': Memory, bs: seq<Block>, i: nat, size: nat)
    requires i < |bs| && Splits(bs[i], size)
  {
    var a := bs[i].addr;
    var n := a + HEADER + size;
    a in mem &&
    mem' == mem[n := Header(bs[i].size - size - HEADER, true, HEAP_MAGIC_FREE, mem[a].next, a)]
               [a := mem[a].(size := size, free := false, next := n, magic := HEAP_MAGIC_ALLOC)]
  }

  lemma SplitChained(mem: Memory, mem': Memory, bs: seq<Block>, i: nat, size: nat)
    requires Chained(mem, bs) && i < |bs| && Splits(bs[i], size)
    requires Apart(Place(bs, i, size)) && SplitMemory(mem, mem', bs, i, size)
    ensures Chained(mem', Place(bs, i, size)) && DeadKept(mem, mem', Place(bs, i, size))
  {
    var r := Place(bs, i, size);
    assert Shows(mem, bs, i);
    assert r[i].addr == bs[i].addr && r[i + 1].addr == bs[i].addr + HEADER + size;
    forall k | 0 <= k < |r| ensures Shows(mem', r, k) {
      if k < i {
        assert Shows(mem, bs, k) && r[k] == bs[k] && r[k].addr != r[i].addr && r[k].addr != r[i + 1].addr;
      } else if k > i + 1 {
        assert Shows(mem, bs, k - 1) && r[k] == bs[k - 1] && r[i].addr != r[k].addr && r[i + 1].addr != r[k].addr;
      }
    }
  }

  /** A split writes the link of the new block only. */
  lemma SplitPrev(mem: Memory, mem': Memory, bs: seq<Block>, i: nat, size: nat, addr: nat)
    requires i < |bs| && Splits(bs[i], size) && SplitMemory(mem, mem', bs, i, size)
    ensures PrevAt(mem', addr) == if addr == bs[i].addr + HEADER + size then bs[i].addr else PrevAt(mem, addr)
  {
  }

  /** Splitting block `i`: the chain is right again, the new block's link names the block that was
      split, and so does the successor's, if it was exact; every link is kept. */
  lemma SplitLinked(mem: Memory, mem': Memory, bs: seq<Block>, i: nat, size: nat)
    requires Chained(mem, bs) && i < |bs| && Splits(bs[i], size)
    requires Apart(Place(bs, i, size)) && SplitMemory(mem, mem', bs, i, size)
    ensures Chained(mem', Place(bs, i, size)) && DeadKept(mem, mem', Place(bs, i, size))
    ensures ViewOf(mem', Place(bs, i, size)) == PlaceChain(ViewOf(mem, bs), i, size)
  {
    SplitChained(mem, mem', bs, i, size);
    var r, c := Place(bs, i, size), PlaceChain(ViewOf(mem, bs), i, size);
    var n := bs[i].addr + HEADER + size;
    assert r[i].addr == bs[i].addr && r[i + 1].addr == n && |r| == |bs| + 1;
    hide Chained, DeadKept, Place, PlaceChain, PrevAt, Apart;
    SplitIndex(ViewOf(mem, bs), i, size, 0);
    forall k | 0 <= k < |r| ensures PrevAt(mem', r[k].addr) == c.links[k] {
      SplitIndex(ViewOf(mem, bs), i, size, k);
      SplitPrev(mem, mem', bs, i, size, r[k].addr);
      if k != i + 1 { ApartAt(r, k, i + 1); }
    }
  }

  lemma SplitTidy(mem: Memory, mem': Memory, bs: seq<Block>, fs: seq<nat>, i: nat, size: nat, k: nat)
    requires i < |bs| && Splits(bs[i], size)
    requires var r := Place(bs, i, size);
             && Chained(mem', r) && Tiles(r, fs) && Cover(bs) <= Cover(r) && k < |r| == |bs| + 1
             && DeadKept(mem, mem', r) && ViewOf(mem', r) == PlaceChain(ViewOf(mem, bs), i, size)
    requires GoodFrames(fs) && Tidy(mem, bs)
    ensures LinkTidy(mem', Place(bs, i, size), k)
  {
    hide GoodFrames, Cover, DeadKept, Tiles, Chained, LinkTidy, PrevAt, IsHead, Stretch, Place, PlaceChain;
    var r, v := Place(bs, i, size), ViewOf(mem, bs);
    SplitIndex(v, i, size, k);
    if k == i + 1 {
      SplitIndex(v, i, size, i);
      ExactTidy(mem', r, fs, k);
    } else {
      var j := if k <= i then k else k - 1;
      assert LinkTidy(mem, bs, j);
      if j > 0 {
        var h := if j == i + 1 then i else k - 1;
        SplitIndex(v, i, size, h);
        HeadOf(r, h, bs[j - 1].addr);
      }
      KeptTidy(mem, bs, j, mem', r, fs, k);
    }
  }

  lemma SplitKeeps(mem: Memory, mem': Memory, bs: seq<Block>, fs: seq<nat>, i: nat, size: nat)
    requires Good(mem, bs, fs) && i < |bs| && Splits(bs[i], size) && SplitMemory(mem, mem', bs, i, size)
    ensures Good(mem', Place(bs, i, size), fs)
    ensures ViewOf(mem', Place(bs, i, size)) == PlaceChain(ViewOf(mem, bs), i, size)
  {
    var r := Place(bs, i, size);
    PlaceCover(bs, i, size);
    TilesApart(r, fs);
    hide GoodFrames, Cover, SplitMemory, DeadKept;
    SplitLinked(mem, mem', bs, i, size);
    assert |r| == |bs| + 1;
    hide *;
    forall k | 0 <= k < |r| ensures LinkTidy(mem', r, k) { SplitTidy(mem, mem', bs, fs, i, size, k); }
  }

  // A join.

  /** The memory after block `i` has absorbed its successor. */
  ghost predicate JoinMemory(mem: Memory, mem': Memory, bs: seq<Block>, i: nat)
    requires i + 1 < |bs| && bs[i].addr in mem && bs[i + 1].addr in mem
  {
    var a, h, n := bs[i].addr, mem[bs[i].addr], mem[bs[i + 1].addr];
    var m := mem[a := h.(size := bs[i].size + HEADER + bs[i + 1].size, next := n.next)];
    (n.next != 0 ==> n.next in m) && mem' == if n.next != 0 then m[n.next := m[n.next].(prev := a)] else m
  }

  lemma JoinChained(mem: Memory, mem': Memory, bs: seq<Block>, i: nat)
    requires Chained(mem, bs) && Apart(bs) && Joins(bs, i) && bs[i].addr in mem && bs[i + 1].addr in mem
    requires JoinMemory(mem, mem', bs, i)
    ensures Chained(mem', Join(bs, i)) && DeadKept(mem, mem', Join(bs, i))
  {
    var r := Join(bs, i);
    assert Shows(mem, bs, i) && Shows(mem, bs, i + 1) && r[i].addr == bs[i].addr;
    forall k | 0 <= k < |r| ensures Shows(mem', r, k) {
      if k < i {
        assert Shows(mem, bs, k) && r[k] == bs[k] && bs[k].addr != bs[i].addr;
        if i + 2 < |bs| { assert bs[k].addr != bs[i + 2].addr; }
      } else if k == i {
        if i + 2 < |bs| { assert bs[i].addr != bs[i + 2].addr; }
      } else {
        assert Shows(mem, bs, k + 1) && r[k] == bs[k + 1] && bs[i].addr != bs[k + 1].addr;
      }
    }
  }

  /** A join changes the link of the block behind it only. */
  lemma JoinPrev(mem: Memory, mem': Memory, bs: seq<Block>, i: nat, addr: nat)
    requires i + 1 < |bs| && bs[i].addr in mem && bs[i + 1].addr in mem && JoinMemory(mem, mem', bs, i)
    requires mem[bs[i + 1].addr].next == AddrOrNull(bs, i + 2)
    requires i + 2 < |bs| ==> bs[i + 2].addr != 0
    ensures PrevAt(mem', addr) == if i + 2 < |bs| && addr == bs[i + 2].addr then bs[i].addr else PrevAt(mem, addr)
  {
  }

  /** Joining keeps the chain; it repairs the `prev` link behind the joint block and keeps all others. */
  lemma JoinLinked(mem: Memory, mem': Memory, bs: seq<Block>, i: nat)
    requires Chained(mem, bs) && Apart(bs) && Joins(bs, i) && bs[i].addr in mem && bs[i + 1].addr in mem
    requires JoinMemory(mem, mem', bs, i)
    ensures Chained(mem', Join(bs, i)) && DeadKept(mem, mem', Join(bs, i))
    ensures ViewOf(mem', Join(bs, i)) == JoinChain(ViewOf(mem, bs), i)
  {
    JoinChained(mem, mem', bs, i);
    var r, c := Join(bs, i), JoinChain(ViewOf(mem, bs), i);
    ChainAt(mem, bs, i + 1);
    if i + 2 < |bs| { NullOnlyAtEnd(bs, i + 2); }
    hide DeadKept, Chained, Join, JoinChain, Joins, JoinMemory, PrevAt, Apart;
    JoinIndex(ViewOf(mem, bs), i, 0);
    forall k | 0 <= k < |r| ensures PrevAt(mem', r[k].addr) == c.links[k] {
      JoinIndex(ViewOf(mem, bs), i, k);
      var j := if k <= i then k else k + 1;
      JoinPrev(mem, mem', bs, i, bs[j].addr);
      if i + 2 < |bs| && j != i + 2 { ApartAt(bs, i + 2, j); }
    }
  }

  lemma JoinTidy(mem: Memory, mem': Memory, bs: seq<Block>, fs: seq<nat>, i: nat, k: nat)
    requires Joins(bs, i)
    requires var r := Join(bs, i);
             && Chained(mem', r) && Tiles(r, fs) && Cover(bs) <= Cover(r) && k < |r| == |bs| - 1
             && DeadKept(mem, mem', r) && ViewOf(mem', r) == JoinChain(ViewOf(mem, bs), i)
    requires GoodFrames(fs) && Tidy(mem, bs)
    ensures LinkTidy(mem', Join(bs, i), k)
  {
    hide GoodFrames, Cover, DeadKept, Tiles, Chained, LinkTidy, PrevAt, IsHead, Stretch, Join, JoinChain, Joins;
    var r, v := Join(bs, i), ViewOf(mem, bs);
    JoinIndex(v, i, k);
    if k > 0 { JoinIndex(v, i, k - 1); }
    if k == i + 1 {
      ExactTidy(mem', r, fs, k);
    } else {
      var j := if k <= i then k else k + 1;
      assert LinkTidy(mem, bs, j);
      if j > 0 { HeadOf(r, k - 1, bs[j - 1].addr); }
      KeptTidy(mem, bs, j, mem', r, fs, k);
    }
  }

  lemma JoinKeeps(mem: Memory, mem': Memory, bs: seq<Block>, fs: seq<nat>, i: nat)
    requires Good(mem, bs, fs) && Joins(bs, i) && bs[i].addr in mem && bs[i + 1].addr in mem
    requires JoinMemory(mem, mem', bs, i)
    ensures Good(mem', Join(bs, i), fs) && ViewOf(mem', Join(bs, i)) == JoinChain(ViewOf(mem, bs), i)
  {
    var r := Join(bs, i);
    JoinCover(bs, i);
    TilesApart(bs, fs);
    hide GoodFrames, Cover, JoinMemory, DeadKept;
    JoinLinked(mem, mem', bs, i);
    assert |r| == |bs| - 1;
    hide *;
    forall k | 0 <= k < |r| ensures LinkTidy(mem', r, k) { JoinTidy(mem, mem', bs, fs, i, k); }
  }

  // ----- the heap -----

  class Kheap {
    var head: nat
    var mem: Memory
    ghost var blocks: seq<Block>
    ghost var frames: seq<nat>

    ghost predicate Valid()
      reads this
    {
      head == AddrOrNull(blocks, 0) && Good(mem, blocks, frames)
    }

    /** The blocks with the `prev` links as they are in memory. */
    ghost function View(): (c: Chain)
      reads this
      ensures Paired(c) && c.blocks == blocks
    {
      ViewOf(mem, blocks)
    }

    constructor ()
      ensures Valid() && View() == NoBlocks && frames == []
    {
      head, mem, blocks, frames := 0, map[], [], [];
    }

    /** request_space: a fresh frame becomes one free block at the end of the chain. */
    method RequestSpace(last: nat, frame: nat) returns (block: nat)
      requires Valid() && last == AddrOrNull(blocks, |blocks| - 1)
      requires frame % FRAME == 0 && frame != 0 && frame !in frames
      modifies this
      ensures Valid() && block == frame && frames == old(frames) + [frame]
      ensures View() == GrowChain(old(View()), frame)
      ensures mem.Keys == old(mem.Keys) + {frame}
    {
      block := frame;
      hide Tiles, GoodFrames, Tidy;
      TilesApart(blocks, frames);
      if blocks != [] { ChainAt(mem, blocks, |blocks| - 1); }
      GrowTiles(blocks, frames, frame);
      TilesApart(Grow(blocks, frame), frames + [frame]);
      assert last != 0 ==> Grow(blocks, frame)[|blocks| - 1].addr != Grow(blocks, frame)[|blocks|].addr;
      ghost var before := mem;
      mem := mem[frame := Header(LARGEST, true, HEAP_MAGIC_FREE, 0, last)];
      if last != 0 {
        mem := mem[last := mem[last].(next := frame)];
      } else {
        assert blocks == [];
        head := frame;
      }
      GrowKeeps(before, mem, blocks, frames, frame);
      blocks, frames := Grow(blocks, frame), frames + [frame];
    }

    /** The three ways kmalloc uses a free block that is large enough. */
    method UseBlock(current: nat, size: nat, ghost i: nat)
      requires Valid() && i < |blocks| && current == blocks[i].addr && blocks[i].free && size <= blocks[i].size
      modifies this`mem, this`blocks
      ensures Valid() && View() == PlaceChain(old(View()), i, size)
    {
      hide Tiles, GoodFrames, Tidy;
      ChainAt(mem, blocks, i);
      ghost var before := mem;
      var h := mem[current];
      if h.size == size {
        mem := mem[current := h.(free := false, magic := HEAP_MAGIC_ALLOC)];
        MarkKeeps(before, mem, blocks, frames, i, false);
      } else if h.size >= size + HEADER + 1 {
        var newBlock := current + HEADER + size;
        mem := mem[newBlock := Header(h.size - size - HEADER, true, HEAP_MAGIC_FREE, h.next, current)];
        mem := mem[current := h.(size := size, free := false, next := newBlock, magic := HEAP_MAGIC_ALLOC)];
        SplitKeeps(before, mem, blocks, frames, i, size);
      } else {
        mem := mem[current := h.(free := false, magic := HEAP_MAGIC_ALLOC)];
        MarkKeeps(before, mem, blocks, frames, i, false);
      }
      blocks := Place(blocks, i, size);
    }

    /** kmalloc; `frame` is the frame the allocator would hand out.  Sizes 0 and above 4076 are
        refused.  Otherwise the first free block that is large enough, in chain order, is used; a
        frame is acquired only when there is none.  The new chain, with every `prev` link, is the
        one `MallocChain` gives. */
    method Kmalloc(size: nat, frame: nat) returns (ptr: nat)
      requires Valid()
      requires frame % FRAME == 0 && frame != 0 && frame !in frames
      modifies this
      ensures Valid()
      ensures size == 0 || size > LARGEST ==>
                ptr == 0 && blocks == old(blocks) && frames == old(frames) && mem == old(mem)
      ensures 1 <= size <= LARGEST ==>
        var i := FirstFit(old(blocks), size);
        && View() == MallocChain(old(View()), size, frame)
        && frames == (if i < |old(blocks)| then old(frames) else old(frames) + [frame])
        && i < |blocks| && ptr == blocks[i].addr + HEADER && !blocks[i].free && blocks[i].size >= size
    {
      if size == 0 || size > LARGEST {
        return 0;
      }
      hide Tiles, GoodFrames, Tidy, Splits, Chained, Apart, MallocChain, PlaceChain, Place;
      ghost var bs, target := blocks, FirstFit(blocks, size);
      ghost var grown := false;
      if head == 0 {
        TilesApart(blocks, frames);
        NullOnlyAtEnd(blocks, 0);
        var _ := RequestSpace(0, frame);
        grown := true;
      }
      var current, last := head, 0;
      ghost var i: int := 0;
      while true
        invariant Valid() && 0 <= i <= target
        invariant if grown
                  then target == |bs| && View() == GrowChain(old(View()), frame) && frames == old(frames) + [frame]
                  else blocks == bs && frames == old(frames) && mem == old(mem)
        invariant current == AddrOrNull(blocks, i) && last == AddrOrNull(blocks, i - 1)
        invariant grown || current != 0 || i == |blocks|
        decreases !grown, |blocks| - i
      {
        TilesApart(blocks, frames);
        NullOnlyAtEnd(blocks, i);
        if current != 0 {
          ChainAt(mem, blocks, i);
          if mem[current].free && mem[current].size >= size {
            assert i == target;
            MallocPlaces(old(View()), size, frame);
            UseBlock(current, size, i);
            return current + HEADER;
          }
          last := current;
          current := mem[current].next;
          i := i + 1;
        } else {
          current := RequestSpace(last, frame);
          grown := true;
        }
      }
    }

    /** Coalescing: the free block at `first` takes in its successor, which touches it. */
    method Absorb(first: nat, ghost i: nat)
      requires Valid() && Joins(blocks, i) && first == blocks[i].addr
      modifies this`mem, this`blocks
      ensures Valid() && View() == JoinChain(old(View()), i)
    {
      hide Tiles, GoodFrames, Tidy;
      TilesApart(blocks, frames);
      ChainAt(mem, blocks, i);
      ChainAt(mem, blocks, i + 1);
      if i + 2 < |blocks| { ChainAt(mem, blocks, i + 2); }
      ghost var before := mem;
      var next := mem[mem[first].next];
      mem := mem[first := mem[first].(size := mem[first].size + HEADER + next.size, next := next.next)];
      if next.next != 0 {
        mem := mem[next.next := mem[next.next].(prev := first)];
      }
      JoinKeeps(before, mem, blocks, frames, i);
      blocks := Join(blocks, i);
    }

    method MarkFree(block: nat, ghost i: nat)
      requires Valid() && i < |blocks| && block == blocks[i].addr
      modifies this`mem, this`blocks
      ensures Valid() && View() == MarkChain(old(View()), i, true)
    {
      hide Tiles, GoodFrames, Tidy;
      ChainAt(mem, blocks, i);
      ghost var before := mem;
      mem := mem[block := mem[block].(free := true, magic := HEAP_MAGIC_FREE)];
      MarkKeeps(before, mem, blocks, frames, i, true);
      blocks := blocks[i := blocks[i].(free := true)];
    }

    method FreeNext(block: nat, ghost i: nat)
      requires Valid() && i < |blocks| && block == blocks[i].addr && blocks[i].free
      modifies this`mem, this`blocks
      ensures Valid() && View() == JoinChain(old(View()), i)
    {
      hide Tiles, GoodFrames, Tidy;
      TilesApart(blocks, frames);
      ChainAt(mem, blocks, i);
      if i + 1 < |blocks| { ChainAt(mem, blocks, i + 1); }
      var next := mem[block].next;
      if next != 0 && mem[next].free && block + HEADER + mem[block].size == next {
        Absorb(block, i);
      }
    }

    method FreePrev(block: nat, ghost i: nat)
      requires Valid() && i < |blocks| && block == blocks[i].addr && blocks[i].free
      modifies this`mem, this`blocks
      ensures Valid()
      ensures View() == if i > 0 && Exact(old(View()), i) then JoinChain(old(View()), i - 1) else old(View())
    {
      hide Tiles, GoodFrames, Stretch;
      TilesApart(blocks, frames);
      ChainAt(mem, blocks, i);
      assert LinkTidy(mem, blocks, i);
      if i > 0 { ChainAt(mem, blocks, i - 1); }
      var prev := mem[block].prev;
      if prev != 0 && mem[prev].free && prev + HEADER + mem[prev].size == block {
        Absorb(prev, i - 1);
      }
    }

    /** kfree of null or of block `i`, allocated or, after the diagnostic, freed a second time.  It
        joins the block with both neighbours where they are free and touch, except that with a stale
        `prev` link it leaves its predecessor alone: what the link leads to never passes for a free
        block that touches this one. */
    method Kfree(ptr: nat, ghost i: nat)
      requires Valid()
      requires ptr != 0 ==> i < |blocks| && ptr == blocks[i].addr + HEADER
      modifies this`mem, this`blocks
      ensures Valid()
      ensures View() == if ptr == 0 then old(View()) else FreeChain(old(View()), i)
    {
      if ptr == 0 {
        return;
      }
      var block := ptr - HEADER;
      MarkFree(block, i);
      FreeNext(block, i);
      FreePrev(block, i);
    }
  }
}
