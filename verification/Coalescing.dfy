/** What kmalloc and kfree make of the block list, written out block by block, and what that means
    for free neighbours over whole runs. */
module Coalescing {
  import opened HeapBlocks

  /** Block `k` and the next are both free, and the one ends where the other starts. */
  predicate Touch(bs: seq<Block>, k: int) {
    0 <= k && k + 1 < |bs| && bs[k].free && bs[k + 1].free && bs[k].addr + 20 + bs[k].size == bs[k + 1].addr
  }

  /** The byte at `x` belongs to the block or its header. */
  predicate Within(b: Block, x: int) { b.addr <= x < b.addr + 20 + b.size }

  // ----- kfree -----

  /** The first block kfree of block `i` makes part of the joint block. */
  function From(c: Chain, i: nat): nat
    requires Paired(c) && i < |c.blocks|
  {
    var bs := c.blocks;
    if i > 0 && c.links[i] == bs[i - 1].addr && bs[i - 1].free && bs[i - 1].addr + 20 + bs[i - 1].size == bs[i].addr
    then i - 1 else i
  }

  /** The first block behind those. */
  function To(bs: seq<Block>, i: nat): nat
    requires i < |bs|
  {
    if i + 1 < |bs| && bs[i + 1].free && bs[i].addr + 20 + bs[i].size == bs[i + 1].addr then i + 2 else i + 1
  }

  /** The bytes of the blocks from `a` up to `b`, without the first header. */
  function Bytes(bs: seq<Block>, a: nat, b: nat): nat
    requires a < b <= |bs|
    decreases b
  {
    if a + 1 == b then bs[a].size else Bytes(bs, a, b - 1) + 20 + bs[b - 1].size
  }

  /** The blocks from `a` up to `b` as one free block. */
  function Joint(bs: seq<Block>, a: nat, b: nat): Block
    requires a < b <= |bs|
  {
    Block(bs[a].addr, Bytes(bs, a, b), true)
  }

  lemma FreeNextExact(bs: seq<Block>, i: nat)
    requires i < |bs|
    ensures FreeOnly(bs, i) == bs[..i] + [Joint(bs, i, To(bs, i))] + bs[To(bs, i)..]
  {
    var a := bs[i := bs[i].(free := true)];
    assert a[..i] == bs[..i] && a[i + 1..] == bs[i + 1..];
    assert a == a[..i] + [a[i]] + a[i + 1..];
    if To(bs, i) == i + 2 {
      assert a[i + 2..] == bs[i + 2..] && Bytes(bs, i, i + 2) == Bytes(bs, i, i + 1) + 20 + bs[i + 1].size;
    }
  }

  lemma {:induction false} BytesFront(bs: seq<Block>, a: nat, b: nat)
    requires a + 1 < b <= |bs|
    ensures Bytes(bs, a, b) == bs[a].size + 20 + Bytes(bs, a + 1, b)
    decreases b
  {
    if a + 2 < b { BytesFront(bs, a, b - 1); }
  }

  /** kfree joins the block with the next one and the previous one where they are free and touch it,
      with the previous one only if the link names it, and leaves every other block alone. */
  lemma FreeExact(c: Chain, i: nat)
    requires Paired(c) && i < |c.blocks|
    ensures var a, b := From(c, i), To(c.blocks, i);
            FreeChain(c, i).blocks == c.blocks[..a] + [Joint(c.blocks, a, b)] + c.blocks[b..]
  {
    var bs, b := c.blocks, To(c.blocks, i);
    FreeNextExact(bs, i);
    var r, joint := FreeOnly(bs, i), Joint(bs, i, b);
    assert r[i] == joint && (i > 0 ==> r[i - 1] == bs[i - 1]);
    hide FreeOnly;
    if From(c, i) == i - 1 {
      assert r[..i - 1] == bs[..i - 1] && r[i + 1..] == bs[b..];
      BytesFront(bs, i - 1, b);
    }
  }

  lemma {:induction false} BytesCover(bs: seq<Block>, a: nat, b: nat, x: int)
    requires a < b <= |bs|
    requires forall k {:trigger bs[k].addr} :: a < k < b ==> bs[k].addr == bs[k - 1].addr + 20 + bs[k - 1].size
    ensures bs[a].addr + Bytes(bs, a, b) == bs[b - 1].addr + bs[b - 1].size
    ensures bs[a].addr <= x < bs[a].addr + 20 + Bytes(bs, a, b) <==>
              exists k :: a <= k < b && Within(bs[k], x)
    decreases b
  {
    if a + 1 == b {
      if Within(bs[a], x) { assert a <= a < b && Within(bs[a], x); }
    } else {
      BytesCover(bs, a, b - 1, x);
      assert bs[b - 1].addr == bs[b - 2].addr + 20 + bs[b - 2].size;
      if Within(bs[b - 1], x) { assert a <= b - 1 < b && Within(bs[b - 1], x); }
    }
  }

  /** The joint block covers exactly what the blocks it is made of covered, headers included. */
  lemma JointCovers(c: Chain, i: nat, x: int)
    requires Paired(c) && i < |c.blocks|
    ensures var a, b, bs := From(c, i), To(c.blocks, i), c.blocks;
            Within(Joint(bs, a, b), x) <==> exists k :: a <= k < b && Within(bs[k], x)
  {
    BytesCover(c.blocks, From(c, i), To(c.blocks, i), x);
  }

  /** Behind the joint block no free block starts where it ends, unless the one joined last touched a
      free block before. */
  lemma NothingFreeBehind(c: Chain, i: nat)
    requires Paired(c) && i < |c.blocks|
    ensures From(c, i) < |FreeChain(c, i).blocks| && FreeChain(c, i).blocks[From(c, i)].free
    ensures Touch(FreeChain(c, i).blocks, From(c, i)) <==> To(c.blocks, i) == i + 2 && Touch(c.blocks, i + 1)
  {
    FreeExact(c, i);
    hide FreeChain;
  }

  /** In front of it no free block ends where it starts, if the link was exact, unless two free blocks
      touched there before. */
  lemma NothingFreeBefore(c: Chain, i: nat)
    requires Paired(c) && i < |c.blocks| && Exact(c, i)
    ensures Touch(FreeChain(c, i).blocks, From(c, i) - 1) <==> From(c, i) == i - 1 && Touch(c.blocks, i - 2)
  {
    FreeExact(c, i);
    hide FreeChain;
  }

  ghost predicate NoneTouch(bs: seq<Block>) {
    forall k {:trigger Touch(bs, k)} :: !Touch(bs, k)
  }

  lemma SpliceUntouched(bs: seq<Block>, a: nat, b: nat, joint: Block, r: seq<Block>, k: int)
    requires a < b <= |bs| && r == bs[..a] + [joint] + bs[b..] && NoneTouch(bs) && k != a && k + 1 != a
    ensures !Touch(r, k)
  {
    if 0 <= k && k + 1 < |r| {
      var j := if k < a then k else k + b - a - 1;
      assert r[k] == bs[j] && r[k + 1] == bs[j + 1] && !Touch(bs, j);
    }
  }

  /** From all links exact and no two touching free blocks, kfree leaves no two touching free blocks. */
  lemma FreeLeavesNone(c: Chain, i: nat)
    requires Paired(c) && i < |c.blocks| && AllExact(c) && NoneTouch(c.blocks)
    ensures NoneTouch(FreeChain(c, i).blocks) && AllExact(FreeChain(c, i))
  {
    FreeLinks(c, i);
    FreeExact(c, i);
    assert Exact(c, i);
    NothingFreeBehind(c, i);
    NothingFreeBefore(c, i);
    var a, b, r := From(c, i), To(c.blocks, i), FreeChain(c, i).blocks;
    hide FreeChain, AllExact, Exact;
    forall k ensures !Touch(r, k) {
      if k != a && k + 1 != a { SpliceUntouched(c.blocks, a, b, Joint(c.blocks, a, b), r, k); }
    }
  }

  // ----- kmalloc -----

  /** The blocks kmalloc looks at, with the acquired frame behind them if none of them will do. */
  function Candidates(bs: seq<Block>, i: nat, frame: nat): seq<Block> {
    if i < |bs| then bs else bs + [Block(frame, 4076, true)]
  }

  lemma FirstFitIs(bs: seq<Block>, size: nat, i: nat)
    requires i <= |bs| && (i < |bs| ==> bs[i].free && bs[i].size >= size)
    requires forall k :: 0 <= k < i ==> !(bs[k].free && bs[k].size >= size)
    ensures FirstFit(bs, size) == i
  {
  }

  /** kmalloc uses the first free block of at least `size` bytes.  If it has 21 bytes more, the rest
      behind a new header becomes a free block; otherwise it is used as it is.  So the block handed
      out is never more than 20 bytes too large. */
  lemma MallocExact(bs: seq<Block>, size: nat, frame: nat, i: nat)
    requires size <= 4076 && i <= |bs|
    requires i < |bs| ==> bs[i].free && bs[i].size >= size
    requires forall k :: 0 <= k < i ==> !(bs[k].free && bs[k].size >= size)
    ensures var cs, r := Candidates(bs, i, frame), Malloc(bs, size, frame);
            var b := cs[i];
            && (b.size >= size + 21 ==>
                  r == cs[..i] + [Block(b.addr, size, false), Block(b.addr + 20 + size, b.size - size - 20, true)]
                       + cs[i + 1..])
            && (b.size < size + 21 ==> r == cs[..i] + [Block(b.addr, b.size, false)] + cs[i + 1..])
            && i < |r| && !r[i].free && size <= r[i].size <= size + 20
  {
    FirstFitIs(bs, size, i);
    var cs := Candidates(bs, i, frame);
    assert cs == cs[..i] + [cs[i]] + cs[i + 1..];
  }

  lemma RestUntouched(bs: seq<Block>, size: nat, frame: nat, i: nat, split: bool, r: seq<Block>, k: nat)
    requires size <= 4076 && NoneTouch(bs) && i <= |bs| && i < k && k + 1 < |r|
    requires var cs := Candidates(bs, i, frame);
             var b := cs[i];
             && b.free && b.size >= size && split == (b.size >= size + 21)
             && r == if split
                     then cs[..i] + [Block(b.addr, size, false), Block(b.addr + 20 + size, b.size - size - 20, true)]
                          + cs[i + 1..]
                     else cs[..i] + [Block(b.addr, b.size, false)] + cs[i + 1..]
    ensures !Touch(r, k)
  {
    var cs := Candidates(bs, i, frame);
    var j := if split then k - 1 else k;
    assert i < |bs| && cs == bs;
    assert r[k + 1] == bs[j + 1] && (j > i ==> r[k] == bs[j]) && !Touch(bs, j);
  }

  /** kmalloc never makes two free blocks touch. */
  lemma MallocLeavesNone(bs: seq<Block>, size: nat, frame: nat)
    requires size <= 4076 && NoneTouch(bs)
    ensures NoneTouch(Malloc(bs, size, frame))
  {
    var i, r := FirstFit(bs, size), Malloc(bs, size, frame);
    MallocExact(bs, size, frame, i);
    var cs := Candidates(bs, i, frame);
    var split := cs[i].size >= size + 21;
    hide Malloc, FirstFit;
    forall k ensures !Touch(r, k) {
      if 0 <= k && k + 1 < |r| && k != i && k + 1 != i {
        if k + 1 < i {
          assert r[k] == bs[k] && r[k + 1] == bs[k + 1] && !Touch(bs, k);
        } else {
          RestUntouched(bs, size, frame, i, split, r, k);
        }
      }
    }
  }

  // ----- whole runs -----

  /** No allocation of the run splits a block that has a successor. */
  ghost predicate SplitsLast(c: Chain, fs: seq<nat>, ops: seq<Op>)
    requires Paired(c) && Legal(c, fs, ops)
    decreases |ops|
  {
    ops == [] ||
    ((ops[0].Allocate? ==>
        var i := FirstFit(c.blocks, ops[0].size);
        !(i + 1 < |c.blocks| && c.blocks[i].size >= ops[0].size + 21)) &&
     SplitsLast(Apply(c, ops[0]), Acquired(c.blocks, fs, ops[0]), ops[1..]))
  }

  lemma StepLeavesNone(c: Chain, fs: seq<nat>, op: Op)
    requires Paired(c) && AllExact(c) && NoneTouch(c.blocks) && Allowed(c.blocks, fs, op)
    requires op.Allocate? ==>
               var i := FirstFit(c.blocks, op.size); !(i + 1 < |c.blocks| && c.blocks[i].size >= op.size + 21)
    ensures AllExact(Apply(c, op)) && NoneTouch(Apply(c, op).blocks)
  {
    match op
    case Allocate(size, f) =>
      MallocLinks(c, size, f);
      MallocLeavesNone(c.blocks, size, f);
    case Release(i) => FreeLeavesNone(c, i);
  }

  /** As long as no block with a successor is split, every link stays exact and no two free blocks
      ever touch, whatever is allocated and freed. */
  lemma {:induction false} NoneTouchOverRuns(c: Chain, fs: seq<nat>, ops: seq<Op>)
    requires Paired(c) && AllExact(c) && NoneTouch(c.blocks) && Legal(c, fs, ops) && SplitsLast(c, fs, ops)
    ensures AllExact(After(c, fs, ops).0) && NoneTouch(After(c, fs, ops).0.blocks)
    decreases |ops|
  {
    if ops != [] {
      StepLeavesNone(c, fs, ops[0]);
      hide Apply, Acquired, Allowed, AllExact, NoneTouch;
      NoneTouchOverRuns(Apply(c, ops[0]), Acquired(c.blocks, fs, ops[0]), ops[1..]);
    }
  }

  /** In particular from the empty heap. */
  lemma NoneTouchFromEmpty(ops: seq<Op>)
    requires Legal(NoBlocks, [], ops) && SplitsLast(NoBlocks, [], ops)
    ensures NoneTouch(After(NoBlocks, [], ops).0.blocks)
  {
    NoneTouchOverRuns(NoBlocks, [], ops);
  }
}
