/** The physical frame allocator of pelikanOS/src/pmm.c: one bit per frame in a byte array. */
module Frames {

  const MAX_FRAMES: nat := 32768
  const FRAME_SIZE: nat := 4096
  const NO_FRAME: nat := 0xFFFF_FFFF

  function Mask(k: nat): bv8
    requires k < 8
  {
    if k == 0 then 1 else if k == 1 then 2 else if k == 2 then 4 else if k == 3 then 8
    else if k == 4 then 16 else if k == 5 then 32 else if k == 6 then 64 else 128
  }

  function WithBit(b: bv8, k: nat): bv8 requires k < 8 { b | Mask(k) }
  function WithoutBit(b: bv8, k: nat): bv8 requires k < 8 { b & !Mask(k) }

  lemma SetOneBit(b: bv8, k: nat, j: nat)
    requires k < 8 && j < 8
    ensures WithBit(b, k) & Mask(j) == if j == k then Mask(k) else b & Mask(j)
    ensures Mask(k) != 0
  {
  }

  lemma ClearOneBit(b: bv8, k: nat, j: nat)
    requires k < 8 && j < 8
    ensures WithoutBit(b, k) & Mask(j) == if j == k then 0 else b & Mask(j)
  {
  }

  /** `n` consecutive free frames from `s`. */
  ghost predicate RunAt(free: set<nat>, s: nat, n: int) {
    n > 0 && s + n <= MAX_FRAMES && forall f :: s <= f < s + n ==> f in free
  }

  predicate Between(s: nat, f: nat, e: nat) { s <= f < e }

  function Interval(s: nat, e: nat): set<nat> { set f | 0 <= f < e && Between(s, f, e) }

  /** pmm_alloc_frame takes the lowest free frame, and fails exactly when there is none. */
  ghost predicate TakesFrame(free: set<nat>, addr: nat, after: set<nat>) {
    if free == {} then addr == NO_FRAME && after == free
    else
      var f := addr / FRAME_SIZE;
      addr == f * FRAME_SIZE && f in free && (forall g :: g in free ==> f <= g) && after == free - {f}
  }

  /** pmm_alloc_contiguous takes the lowest run of `n` free frames, all of it and nothing else, and
      fails with nothing changed exactly when there is none; there is none for `n < 1`. */
  ghost predicate TakesRun(free: set<nat>, n: int, addr: nat, after: set<nat>) {
    if exists s: nat :: RunAt(free, s, n) then
      var s := addr / FRAME_SIZE;
      && addr == s * FRAME_SIZE && RunAt(free, s, n)
      && (forall t: nat :: t < s ==> !RunAt(free, t, n))
      && after == free - Interval(s, s + n)
    else addr == NO_FRAME && after == free
  }

  /** The same in numbers: 32768 frames of 4096 bytes. */
  predicate FreeRun(free: set<nat>, s: nat, n: int) {
    s + n <= 32768 && forall f :: s <= f < s + n ==> f in free
  }

  lemma TakesRunExact(free: set<nat>, n: int, addr: nat, after: set<nat>)
    requires n >= 1
    ensures TakesRun(free, n, addr, after) <==>
            (addr % 4096 == 0 && FreeRun(free, addr / 4096, n) &&
             (forall t: nat :: t < addr / 4096 ==> !FreeRun(free, t, n)) &&
             (forall f :: f in after <==> f in free && !(addr / 4096 <= f < addr / 4096 + n))) ||
            ((forall t: nat :: !FreeRun(free, t, n)) && addr == 0xFFFF_FFFF && after == free)
  {
    assert forall t: nat :: RunAt(free, t, n) <==> FreeRun(free, t, n);
    var s, e := addr / 4096, addr / 4096 + n;
    assert forall f :: f in Interval(s, e) <==> Between(s, f, e);
    hide RunAt, FreeRun;
  }

  lemma TakesFrameExact(free: set<nat>, addr: nat, after: set<nat>)
    ensures TakesFrame(free, addr, after) <==>
            (addr % 4096 == 0 && addr / 4096 in free && (forall g :: g in free ==> addr / 4096 <= g) &&
             after == free - {addr / 4096}) ||
            (free == {} && addr == 0xFFFF_FFFF && after == {})
  {
  }

  /** An entry of the multiboot memory map; type 1 is available memory. */
  datatype Region = Region(kind: nat, addr: nat, len: nat)

  function First(r: Region): nat { r.addr / FRAME_SIZE }
  function End(r: Region): nat { (r.addr + r.len) / FRAME_SIZE }

  /** The frames pmm_init frees for the map: for each available region, both ends rounded down. */
  function Freed(map_: seq<Region>): set<nat> {
    if map_ == [] then {}
    else
      var last := map_[|map_| - 1];
      Freed(map_[..|map_| - 1]) + if last.kind == 1 then Interval(First(last), End(last)) else {}
  }

  // ----- what the map says of single bytes -----

  predicate Holds(r: Region, x: nat) { r.kind == 1 && r.addr <= x < r.addr + r.len }

  /** The boot loader reports the byte at `x` as available. */
  ghost predicate Reported(map_: seq<Region>, x: nat) {
    exists r :: r in map_ && Holds(r, x)
  }

  predicate InFrame(f: nat, x: nat) { f * FRAME_SIZE <= x < (f + 1) * FRAME_SIZE }

  /** Every byte of the frame is reported. */
  ghost predicate Available(map_: seq<Region>, f: nat) {
    forall x: nat :: InFrame(f, x) ==> Reported(map_, x)
  }

  /** Every byte of the frame lies in the one region. */
  predicate WhollyIn(f: nat, r: Region) {
    r.addr <= f * FRAME_SIZE && (f + 1) * FRAME_SIZE <= r.addr + r.len
  }

  function LastByte(f: nat): nat { f * FRAME_SIZE + FRAME_SIZE - 1 }

  lemma RegionFrees(r: Region, f: nat)
    ensures f in Interval(First(r), End(r)) <==> r.addr <= LastByte(f) < r.addr + r.len
  {
    assert f in Interval(First(r), End(r)) <==> Between(First(r), f, End(r));
  }

  /** A frame is freed exactly when its last byte is reported; so no wholly available frame is missed. */
  lemma {:induction false} FreedExact(map_: seq<Region>, f: nat)
    ensures f in Freed(map_) <==> Reported(map_, LastByte(f))
    ensures Available(map_, f) ==> f in Freed(map_)
    decreases |map_|
  {
    assert InFrame(f, LastByte(f));
    if map_ != [] {
      var last, front := map_[|map_| - 1], map_[..|map_| - 1];
      FreedExact(front, f);
      RegionFrees(last, f);
      assert map_ == front + [last];
      assert Reported(map_, LastByte(f)) <==> Reported(front, LastByte(f)) || Holds(last, LastByte(f));
    }
  }

  /** What pmm_init leaves free, in addresses: a frame whose last byte is reported, that lies above
      the first megabyte and shares no byte with the kernel image. */
  lemma FreeAtBoot(map_: seq<Region>, kernelStart: nat, kernelEnd: nat, f: nat)
    ensures f in Freed(map_) - Interval(0, 256) - Interval(kernelStart / FRAME_SIZE, (kernelEnd + 4095) / FRAME_SIZE)
            <==> && Reported(map_, LastByte(f)) && f * FRAME_SIZE >= 0x10_0000
                 && !(f * FRAME_SIZE < kernelEnd && kernelStart <= LastByte(f))
  {
    FreedExact(map_, f);
    hide Freed, Reported;
    var a, e := kernelStart / FRAME_SIZE, (kernelEnd + 4095) / FRAME_SIZE;
    assert f in Interval(0, 256) <==> Between(0, f, 256);
    assert f in Interval(a, e) <==> Between(a, f, e);
    assert a <= f <==> kernelStart <= LastByte(f);
    assert f < e <==> f * FRAME_SIZE < kernelEnd;
  }

  /** The frames freed for one region all lie in it exactly when it starts on a frame boundary. */
  lemma RegionFreesExact(r: Region)
    requires First(r) < End(r)
    ensures (forall f :: f in Interval(First(r), End(r)) ==> WhollyIn(f, r)) <==> r.addr % FRAME_SIZE == 0
  {
    RegionFrees(r, First(r));
    assert Between(First(r), First(r), End(r));
    if r.addr % FRAME_SIZE == 0 {
      forall f | f in Interval(First(r), End(r)) ensures WhollyIn(f, r) {
        RegionFrees(r, f);
        assert Between(First(r), f, End(r));
      }
    }
  }

  /** Where a region that frees something starts inside a frame, the bytes of that frame before it
      are reported too. */
  ghost predicate StartsCovered(map_: seq<Region>) {
    forall r, x: nat :: r in map_ && r.kind == 1 && First(r) < End(r) && First(r) * FRAME_SIZE <= x < r.addr ==>
      Reported(map_, x)
  }

  predicate AlignedStarts(map_: seq<Region>) {
    forall r :: r in map_ && r.kind == 1 ==> r.addr % FRAME_SIZE == 0
  }

  lemma AlignedStartsCovered(map_: seq<Region>)
    requires AlignedStarts(map_)
    ensures StartsCovered(map_)
  {
    assert forall r :: r in map_ && r.kind == 1 ==> r.addr == First(r) * FRAME_SIZE;
  }

  lemma FreedWhenCovered(map_: seq<Region>, f: nat)
    requires StartsCovered(map_) && f in Freed(map_)
    ensures Available(map_, f)
  {
    FreedExact(map_, f);
    var r :| r in map_ && Holds(r, LastByte(f));
    assert First(r) <= f < End(r);
    forall x: nat | InFrame(f, x) ensures Reported(map_, x) {
      if x >= r.addr { assert Holds(r, x); }
    }
  }

  /** Every frame pmm_init frees is available to its last byte exactly when the starts are covered. */
  lemma FreedAvailableExact(map_: seq<Region>)
    ensures (forall f :: f in Freed(map_) ==> Available(map_, f)) <==> StartsCovered(map_)
  {
    if StartsCovered(map_) {
      forall f | f in Freed(map_) ensures Available(map_, f) { FreedWhenCovered(map_, f); }
    }
    if forall f :: f in Freed(map_) ==> Available(map_, f) {
      forall r, x: nat | r in map_ && r.kind == 1 && First(r) < End(r) && First(r) * FRAME_SIZE <= x < r.addr
        ensures Reported(map_, x)
      {
        var f := First(r);
        RegionFrees(r, f);
        assert Between(f, f, End(r)) && Holds(r, LastByte(f));
        FreedExact(map_, f);
        assert InFrame(f, x);
      }
    }
  }

  class Pmm {
    const bitmap: array<bv8>

    ghost predicate Valid() { bitmap.Length == 4096 }

    predicate IsFree(f: nat)
      requires Valid() && f < MAX_FRAMES
      reads bitmap
    {
      bitmap[f / 8] & Mask(f % 8) == 0
    }

    ghost function Free(): set<nat>
      requires Valid()
      reads bitmap
    {
      set f | 0 <= f < MAX_FRAMES && IsFree(f)
    }

    constructor ()
      ensures Valid() && fresh(bitmap)
    {
      bitmap := new bv8[4096];
    }

    method MarkUsed(f: nat)
      requires Valid() && f < MAX_FRAMES
      modifies bitmap
      ensures Free() == old(Free()) - {f}
    {
      hide Mask, WithBit;
      bitmap[f / 8] := WithBit(bitmap[f / 8], f % 8);
      forall g | 0 <= g < MAX_FRAMES ensures IsFree(g) <==> old(IsFree(g)) && g != f {
        SetOneBit(old(bitmap[f / 8]), f % 8, g % 8);
      }
    }

    method MarkFree(f: nat)
      requires Valid() && f < MAX_FRAMES
      modifies bitmap
      ensures Free() == old(Free()) + {f}
    {
      hide Mask, WithoutBit;
      bitmap[f / 8] := WithoutBit(bitmap[f / 8], f % 8);
      forall g | 0 <= g < MAX_FRAMES ensures IsFree(g) <==> old(IsFree(g)) || g == f {
        ClearOneBit(old(bitmap[f / 8]), f % 8, g % 8);
      }
    }

    /** The loops that mark a range of frames, here as used ... */
    method MarkRangeUsed(start: nat, end: nat)
      requires Valid() && end <= MAX_FRAMES
      modifies bitmap
      ensures Free() == old(Free()) - Interval(start, end)
    {
      var f := start;
      while f < end
        invariant start <= f && (f == start || f <= end)
        invariant Free() == old(Free()) - Interval(start, f)
      {
        MarkUsed(f);
        f := f + 1;
      }
      assert Interval(start, f) == Interval(start, end);
    }

    /** ... and here as free. */
    method MarkRangeFree(start: nat, end: nat)
      requires Valid() && end <= MAX_FRAMES
      modifies bitmap
      ensures Free() == old(Free()) + Interval(start, end)
    {
      var f := start;
      while f < end
        invariant start <= f && (f == start || f <= end)
        invariant Free() == old(Free()) + Interval(start, f)
      {
        MarkFree(f);
        f := f + 1;
      }
      assert Interval(start, f) == Interval(start, end);
    }

    /** pmm_init: all frames used, then those freed for the map, then the first megabyte and
        the kernel image used again. */
    method Init(map_: seq<Region>, kernelStart: nat, kernelEnd: nat)
      requires Valid()
      requires forall r :: r in map_ && r.kind == 1 ==> End(r) <= MAX_FRAMES
      requires (kernelEnd + 4095) / FRAME_SIZE <= MAX_FRAMES
      modifies bitmap
      ensures Free() == Freed(map_) - Interval(0, 256)
                        - Interval(kernelStart / FRAME_SIZE, (kernelEnd + 4095) / FRAME_SIZE)
    {
      var i := 0;
      while i < bitmap.Length
        invariant 0 <= i <= bitmap.Length
        invariant forall j :: 0 <= j < i ==> bitmap[j] == 0xFF
      {
        bitmap[i] := 0xFF;
        i := i + 1;
      }
      AllOnes();
      var current := 0;
      while current < |map_|
        invariant 0 <= current <= |map_|
        invariant Free() == Freed(map_[..current])
      {
        var entry := map_[current];
        assert map_[..current + 1][..current] == map_[..current];
        if entry.kind == 1 {
          MarkRangeFree(First(entry), End(entry));
        }
        current := current + 1;
      }
      assert map_[..current] == map_;
      MarkRangeUsed(0, 256);
      MarkRangeUsed(kernelStart / FRAME_SIZE, (kernelEnd + 4095) / FRAME_SIZE);
    }

    lemma AllOnes()
      requires Valid() && forall j :: 0 <= j < bitmap.Length ==> bitmap[j] == 0xFF
      ensures Free() == {}
    {
      forall f | 0 <= f < MAX_FRAMES ensures !IsFree(f) {
        assert bitmap[f / 8] == 0xFF;
        assert (0xFF as bv8) & Mask(f % 8) == Mask(f % 8);
      }
    }

    /** pmm_alloc_frame: the lowest free frame. */
    method AllocFrame() returns (addr: nat)
      requires Valid()
      modifies bitmap
      ensures TakesFrame(old(Free()), addr, Free())
    {
      var frame := 0;
      while frame < MAX_FRAMES
        invariant 0 <= frame <= MAX_FRAMES
        invariant Free() == old(Free())
        invariant forall g :: 0 <= g < frame ==> g !in Free()
      {
        if IsFree(frame) {
          assert frame in old(Free());
          MarkUsed(frame);
          return frame * FRAME_SIZE;
        }
        frame := frame + 1;
      }
      addr := NO_FRAME;
    }

    /** pmm_free_frame */
    method FreeFrame(addr: nat)
      requires Valid() && addr / FRAME_SIZE < MAX_FRAMES
      modifies bitmap
      ensures Free() == old(Free()) + {addr / FRAME_SIZE}
    {
      MarkFree(addr / FRAME_SIZE);
    }

    /** pmm_alloc_contiguous: a window [start, end] slides over the bitmap.  The lowest run of `n`
        free frames is taken, and nothing else; without one, or for n < 1, nothing changes. */
    method AllocContiguous(n: int) returns (addr: nat)
      requires Valid()
      modifies bitmap
      ensures TakesRun(old(Free()), n, addr, Free())
    {
      var start, end := 0, 0;
      while end < MAX_FRAMES
        invariant 0 <= start <= end <= MAX_FRAMES
        invariant Free() == old(Free())
        invariant n > 0 ==> end - start < n
        invariant forall f :: start <= f < end ==> f in Free()
        invariant forall t: nat :: t < start ==> !RunAt(old(Free()), t, n)
      {
        if IsFree(end) {
          if end - start + 1 == n {
            assert RunAt(old(Free()), start, n);
            MarkRangeUsed(start, end + 1);
            return start * FRAME_SIZE;
          }
          end := end + 1;
        } else {
          forall t: nat | t < end + 1 ensures !RunAt(old(Free()), t, n) {
            if t >= start && n > 0 { assert t <= end < t + n && end !in Free(); }
          }
          end := end + 1;
          start := end;
        }
      }
      addr := NO_FRAME;
    }

    /** pmm_free_count */
    method FreeCount() returns (count: nat)
      requires Valid()
      ensures count == |Free()|
    {
      count := 0;
      var f := 0;
      ghost var seen: set<nat> := {};
      while f < MAX_FRAMES
        invariant 0 <= f <= MAX_FRAMES
        invariant seen == (set g | 0 <= g < f && IsFree(g)) && count == |seen|
      {
        if IsFree(f) {
          count := count + 1;
          seen := seen + {f};
        }
        f := f + 1;
      }
      assert seen == Free();
    }
  }

  // ----- runs of allocations and frees -----

  /** A call with the address it was given or gave back. */
  datatype Call = Alloc(addr: nat) | Contiguous(n: int, addr: nat) | Release(addr: nat)

  /** The free frames, and the frames handed out and not yet given back. */
  datatype Books = Books(free: set<nat>, out: set<nat>)

  /** The frames a call hands out. */
  ghost function Handed(b: Books, c: Call): set<nat> {
    match c
    case Alloc(addr) => if b.free == {} then {} else {addr / FRAME_SIZE}
    case Contiguous(n, addr) =>
      if exists s: nat :: RunAt(b.free, s, n) then Interval(addr / FRAME_SIZE, addr / FRAME_SIZE + n) else {}
    case Release(_) => {}
  }

  /** The call does what its contract says; only frames that are out are given back. */
  ghost predicate Performs(b: Books, c: Call, r: Books) {
    match c
    case Alloc(addr) => TakesFrame(b.free, addr, r.free) && r.out == b.out + Handed(b, c)
    case Contiguous(n, addr) => TakesRun(b.free, n, addr, r.free) && r.out == b.out + Handed(b, c)
    case Release(addr) =>
      var f := addr / FRAME_SIZE;
      f in b.out && r.free == b.free + {f} && r.out == b.out - {f}
  }

  ghost predicate IsRun(bs: seq<Books>, cs: seq<Call>) {
    |bs| == |cs| + 1 && forall i :: 0 <= i < |cs| ==> Performs(bs[i], cs[i], bs[i + 1])
  }

  lemma HandedIsFree(b: Books, c: Call, r: Books)
    requires Performs(b, c, r)
    ensures Handed(b, c) <= b.free
    ensures b.free !! b.out ==> r.free !! r.out && r.free + r.out == b.free + b.out
  {
  }

  lemma {:induction false} RunKeepsBooks(bs: seq<Books>, cs: seq<Call>, k: nat)
    requires IsRun(bs, cs) && bs[0].free !! bs[0].out && k <= |cs|
    ensures bs[k].free !! bs[k].out && bs[k].free + bs[k].out == bs[0].free + bs[0].out
    decreases k
  {
    if k > 0 {
      RunKeepsBooks(bs, cs, k - 1);
      HandedIsFree(bs[k - 1], cs[k - 1], bs[k]);
    }
  }

  lemma DisjointCount(a: set<nat>, b: set<nat>)
    requires a !! b
    ensures |a + b| == |a| + |b|
  {
  }

  /** Over every run: frames handed out are free and not out before, free and outstanding frames
      stay disjoint and together constant, so the free count plus the outstanding count is too. */
  lemma RunConserves(bs: seq<Books>, cs: seq<Call>, k: nat)
    requires IsRun(bs, cs) && bs[0].free !! bs[0].out && k <= |cs|
    ensures bs[k].free !! bs[k].out && bs[k].free + bs[k].out == bs[0].free + bs[0].out
    ensures |bs[k].free| + |bs[k].out| == |bs[0].free| + |bs[0].out|
    ensures k < |cs| ==> Handed(bs[k], cs[k]) <= bs[k].free && Handed(bs[k], cs[k]) !! bs[k].out
  {
    RunKeepsBooks(bs, cs, k);
    if k < |cs| { HandedIsFree(bs[k], cs[k], bs[k + 1]); }
    hide IsRun, Handed;
    DisjointCount(bs[k].free, bs[k].out);
    DisjointCount(bs[0].free, bs[0].out);
  }

  /** From pmm_init on, no call ever hands out a frame of the first megabyte or of the kernel, or one
      whose last byte is not reported; and if the starts are covered, every one is available. */
  lemma NeverLowNorKernel(map_: seq<Region>, kernelStart: nat, kernelEnd: nat, bs: seq<Books>, cs: seq<Call>, k: nat)
    requires IsRun(bs, cs) && k < |cs| && bs[0].out == {}
    requires bs[0].free == Freed(map_) - Interval(0, 256)
                           - Interval(kernelStart / FRAME_SIZE, (kernelEnd + 4095) / FRAME_SIZE)
    ensures forall f :: f in Handed(bs[k], cs[k]) ==>
              && Reported(map_, LastByte(f)) && (StartsCovered(map_) ==> Available(map_, f))
              && f * FRAME_SIZE >= 0x10_0000
              && (f * FRAME_SIZE + FRAME_SIZE <= kernelStart || kernelEnd <= f * FRAME_SIZE)
  {
    RunConserves(bs, cs, k);
    var a, e := kernelStart / FRAME_SIZE, (kernelEnd + 4095) / FRAME_SIZE;
    hide Handed, IsRun;
    forall f | f in Handed(bs[k], cs[k])
      ensures Reported(map_, LastByte(f)) && (StartsCovered(map_) ==> Available(map_, f))
      ensures f * FRAME_SIZE >= 0x10_0000
      ensures f * FRAME_SIZE + FRAME_SIZE <= kernelStart || kernelEnd <= f * FRAME_SIZE
    {
      assert f in bs[0].free && f in Freed(map_) && f !in Interval(0, 256) && f !in Interval(a, e);
      assert !Between(0, f, 256) && !Between(a, f, e);
      FreedExact(map_, f);
      if StartsCovered(map_) { FreedWhenCovered(map_, f); }
    }
  }

  /** Otherwise one may not be: for a region that starts 2048 bytes into a frame, the first call
      after pmm_init hands that frame out, although its first byte is not reported. */
  lemma PartlyAvailableHandedOut()
    ensures var map_ := [Region(1, 0x10_0800, 0x1_0000)];
            var free := Freed(map_) - Interval(0, 256) - Interval(0, 0);
            && Performs(Books(free, {}), Alloc(0x10_0000), Books(free - {0x100}, {0x100}))
            && !Reported(map_, 0x10_0000) && !StartsCovered(map_)
  {
    var r := Region(1, 0x10_0800, 0x1_0000);
    var map_ := [r];
    var free := Freed(map_) - Interval(0, 256) - Interval(0, 0);
    assert map_[..0] == [] && Freed(map_) == Interval(0x100, 0x110);
    assert forall f :: f in Interval(0x100, 0x110) <==> Between(0x100, f, 0x110);
    assert forall f :: f in Interval(0, 256) <==> 0 <= f < 256 && Between(0, f, 256);
    assert 0x100 in free && forall g :: g in free ==> 0x100 <= g;
    assert !Reported(map_, 0x10_0000);
    assert r in map_ && First(r) * FRAME_SIZE == 0x10_0000;
  }

  datatype Request = WantFrame | WantRun(n: int) | GiveBack(addr: nat)

  /** The call a request asks for. */
  ghost predicate Answers(request: Request, c: Call) {
    match request
    case WantFrame => c.Alloc?
    case WantRun(n) => c.Contiguous? && c.n == n
    case GiveBack(addr) => c == Release(addr)
  }

  /** A request is refused exactly when it gives back a frame that is not out. */
  predicate Refused(request: Request, out: set<nat>) {
    request.GiveBack? && request.addr / FRAME_SIZE !in out
  }

  /** The calls are the requests in their order, without the refused ones; `bs` are the books around
      each call. */
  ghost predicate Follows(requests: seq<Request>, cs: seq<Call>, bs: seq<Books>)
    requires |bs| == |cs| + 1
    decreases |requests|
  {
    if requests == [] then cs == []
    else if Refused(requests[0], bs[0].out) then Follows(requests[1..], cs, bs)
    else cs != [] && Answers(requests[0], cs[0]) && Follows(requests[1..], cs[1..], bs[1..])
  }

  lemma FollowsNothing(bs: seq<Books>)
    requires |bs| == 1
    ensures Follows([], [], bs)
  {
  }

  lemma {:induction false} FollowsRefused(requests: seq<Request>, cs: seq<Call>, bs: seq<Books>, last: Request)
    requires |bs| == |cs| + 1 && Follows(requests, cs, bs) && Refused(last, bs[|cs|].out)
    ensures Follows(requests + [last], cs, bs)
    decreases |requests|
  {
    if requests == [] {
      assert (requests + [last])[1..] == [];
    } else {
      assert (requests + [last])[1..] == requests[1..] + [last];
      if Refused(requests[0], bs[0].out) {
        FollowsRefused(requests[1..], cs, bs, last);
      } else {
        FollowsRefused(requests[1..], cs[1..], bs[1..], last);
      }
    }
  }

  lemma {:induction false} FollowsServed(requests: seq<Request>, cs: seq<Call>, bs: seq<Books>,
                                         last: Request, c: Call, b: Books)
    requires |bs| == |cs| + 1 && Follows(requests, cs, bs)
    requires !Refused(last, bs[|cs|].out) && Answers(last, c)
    ensures Follows(requests + [last], cs + [c], bs + [b])
    decreases |requests|
  {
    if requests == [] {
      assert (requests + [last])[1..] == [] && (cs + [c])[1..] == [];
    } else {
      assert (requests + [last])[1..] == requests[1..] + [last];
      if Refused(requests[0], bs[0].out) {
        FollowsServed(requests[1..], cs, bs, last, c, b);
      } else {
        assert (cs + [c])[1..] == cs[1..] + [c] && (bs + [b])[1..] == bs[1..] + [b];
        FollowsServed(requests[1..], cs[1..], bs[1..], last, c, b);
      }
    }
  }

  /** One request; giving back a frame that is not out is not served. */
  method ServeOne(p: Pmm, request: Request, out: set<nat>) returns (served: bool, c: Call, out': set<nat>)
    requires p.Valid() && forall f :: f in out ==> f < MAX_FRAMES
    modifies p.bitmap
    ensures forall f :: f in out' ==> f < MAX_FRAMES
    ensures served == !Refused(request, out) && (served ==> Answers(request, c))
    ensures if served then Performs(Books(old(p.Free()), out), c, Books(p.Free(), out'))
            else p.Free() == old(p.Free()) && out' == out
  {
    served, out' := true, out;
    match request {
      case WantFrame =>
        var addr := p.AllocFrame();
        c := Alloc(addr);
        if addr != NO_FRAME { out' := out + {addr / FRAME_SIZE}; }
      case WantRun(n) =>
        var addr := p.AllocContiguous(n);
        c := Contiguous(n, addr);
        if addr != NO_FRAME {
          assert RunAt(old(p.Free()), addr / FRAME_SIZE, n);
          out' := out + Interval(addr / FRAME_SIZE, addr / FRAME_SIZE + n);
        }
      case GiveBack(addr) =>
        c := Release(addr);
        if addr / FRAME_SIZE in out {
          p.FreeFrame(addr);
          out' := out - {addr / FRAME_SIZE};
        } else {
          served := false;
        }
    }
  }

  /** The allocator driven through any sequence of requests performs exactly those that are not
      refused, in their order, and keeps exactly these books. */
  method Serve(p: Pmm, requests: seq<Request>) returns (ghost cs: seq<Call>, ghost bs: seq<Books>)
    requires p.Valid()
    modifies p.bitmap
    ensures IsRun(bs, cs) && Follows(requests, cs, bs)
    ensures bs[0] == Books(old(p.Free()), {}) && bs[|cs|].free == p.Free()
    ensures |p.Free()| + |bs[|cs|].out| == |old(p.Free())|
  {
    hide Performs, Pmm.Free, Follows, Answers, Refused;
    cs, bs := [], [Books(p.Free(), {})];
    FollowsNothing(bs);
    var out: set<nat> := {};
    for i := 0 to |requests|
      invariant IsRun(bs, cs) && bs[0] == Books(old(p.Free()), {}) && Follows(requests[..i], cs, bs)
      invariant bs[|cs|] == Books(p.Free(), out) && forall f :: f in out ==> f < MAX_FRAMES
    {
      var served, c, out' := ServeOne(p, requests[i], out);
      assert requests[..i + 1] == requests[..i] + [requests[i]];
      if served {
        FollowsServed(requests[..i], cs, bs, requests[i], c, Books(p.Free(), out'));
        cs, bs := cs + [c], bs + [Books(p.Free(), out')];
      } else {
        FollowsRefused(requests[..i], cs, bs, requests[i]);
      }
      out := out';
    }
    assert requests[..|requests|] == requests;
    RunConserves(bs, cs, |cs|);
  }
}
