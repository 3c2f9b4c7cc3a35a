// The arena of include/my_arena_allocator.h: aligned bump allocation in a growing list of blocks.
// Addresses are unbounded, and 0 is NULL.
module Arena {
  import opened Bits
  import opened Wrappers

  const ARENA_REGION_DEFAULT_CAPACITY: nat := 8 * 1024

  /** sizeof(struct ArenaBlock), which has three pointers. */
  const HEADER: nat := 24

  /** A stretch of memory, as the child allocator or the arena hands it out. */
  datatype Region = Region(base: nat, size: nat) {
    predicate Apart(other: Region) {
      base + size <= other.base || other.base + other.size <= base
    }

    predicate Within(lo: nat, hi: nat) {
      lo <= base && base + size <= hi
    }
  }

  /** struct ArenaBlock at address base; the list of blocks is a sequence. */
  datatype Block = Block(base: nat, current: nat, end: nat) {
    function Start(): nat {
      base + HEADER
    }

    predicate Valid() {
      0 < base && Start() <= current <= end
    }

    function All(): Region
      requires Valid()
    {
      Region(base, end - base)
    }

    /** The part of the payload that has been handed out. */
    function Used(): Region
      requires Valid()
    {
      Region(Start(), current - Start())
    }

    /** The pointer is in the payload. */
    predicate Owns(ptr: nat) {
      Start() <= ptr < end
    }

    /** What was not handed out yet has `size` bytes at some multiple of the alignment. */
    ghost predicate Room(alignment: nat, size: nat) {
      alignment > 0 && exists p: nat :: current <= p && p % alignment == 0 && p + size <= end
    }
  }

  /** The child allocator never fails, and never hands out memory that overlaps what it has
      handed out: its answer depends on that and on the size asked for. */
  type Child = (seq<Region>, nat) -> nat

  ghost predicate Honest(child: Child) {
    && (forall given, n :: 0 < child(given, n))
    && (forall given, n, i :: 0 <= i < |given| ==> Region(child(given, n), n).Apart(given[i]))
  }

  /** Such a child allocator exists: one that never reuses memory. */
  function Beyond(given: seq<Region>): (end: nat)
    ensures end > 0 && forall i :: 0 <= i < |given| ==> given[i].base + given[i].size <= end
  {
    if given == [] then 1
    else
      var last, rest := given[|given| - 1], Beyond(given[..|given| - 1]);
      if rest < last.base + last.size then last.base + last.size else rest
  }

  lemma HonestExists()
    ensures Honest((given, _) => Beyond(given))
  {
  }

  // ----- alignment -----

  /** (curr + alignment - 1) & ~(alignment - 1). */
  function AlignUp(curr: nat, alignment: nat): nat
    requires alignment > 0
  {
    AndNot(curr + alignment - 1, alignment - 1)
  }

  /** For a power of two it is the first multiple that is not below curr. */
  lemma AlignUpIsNext(curr: nat, alignment: nat)
    requires IsPow2(alignment)
    ensures alignment > 0 && AlignUp(curr, alignment) % alignment == 0
    ensures curr <= AlignUp(curr, alignment) < curr + alignment
  {
    var k: nat :| alignment == Pow2(k);
    var x := curr + alignment - 1;
    ClearMask(x, k);
    ClearedIsMultiple(x, alignment);
  }

  ghost predicate FirstAligned(from: nat, alignment: nat, p: nat) {
    && alignment > 0 && p % alignment == 0 && from <= p
    && forall q: nat :: from <= q && q % alignment == 0 ==> p <= q
  }

  lemma AlignUpFirst(curr: nat, alignment: nat)
    requires IsPow2(alignment)
    ensures FirstAligned(curr, alignment, AlignUp(curr, alignment))
  {
    AlignUpIsNext(curr, alignment);
    var p := AlignUp(curr, alignment);
    forall q: nat | curr <= q && q % alignment == 0
      ensures p <= q
    {
      if q < p {
        MultiplesApart(q, p, alignment);
      }
    }
  }

  lemma MultiplesApart(q: nat, p: nat, n: nat)
    requires n > 0 && q < p && q % n == 0 && p % n == 0
    ensures q + n <= p
  {
    var i, j := q / n, p / n;
    assert p - q == (j - i) * n;
    PositiveProduct(j - i, n);
  }

  lemma PositiveProduct(x: int, n: nat)
    requires x * n > 0
    ensures x * n >= n
  {
    if x > 0 { assert (x - 1) * n >= 0; }
  }

  /** There is room exactly when there is at the first aligned address. */
  lemma RoomAtFirst(block: Block, alignment: nat, size: nat, p: nat)
    requires FirstAligned(block.current, alignment, p)
    ensures block.Room(alignment, size) <==> p + size <= block.end
  {
  }

  // ----- memory -----

  type Memory = nat -> byte

  /** memcpy(to, from, n). */
  function Copied(mem: Memory, to: nat, from: nat, n: nat): Memory {
    (a: nat) => if to <= a < to + n then mem(from + a - to) else mem(a)
  }

  // ----- the arena as a value -----

  ghost predicate BlocksValid(blocks: seq<Block>) {
    && (forall k :: 0 <= k < |blocks| ==> blocks[k].Valid())
    && (forall j, k :: 0 <= j < k < |blocks| ==> blocks[j].All().Apart(blocks[k].All()))
  }

  ghost predicate Held(blocks: seq<Block>, a: Region) {
    exists k :: 0 <= k < |blocks| && a.Within(blocks[k].Start(), blocks[k].current)
  }

  /** Every allocation lies in the used part of one block's payload, and no two overlap. */
  ghost predicate AllocationsValid(blocks: seq<Block>, allocs: seq<Region>) {
    && (forall i :: 0 <= i < |allocs| ==> Held(blocks, allocs[i]))
    && (forall i, j :: 0 <= i < j < |allocs| ==> allocs[i].Apart(allocs[j]))
  }

  function Given(blocks: seq<Block>): seq<Region>
    requires forall k :: 0 <= k < |blocks| ==> blocks[k].Valid()
  {
    seq(|blocks|, k requires 0 <= k < |blocks| => blocks[k].All())
  }

  lemma AppendValid(blocks: seq<Block>, allocs: seq<Region>, block: Block)
    requires BlocksValid(blocks) && AllocationsValid(blocks, allocs) && block.Valid()
    requires forall k :: 0 <= k < |blocks| ==> block.All().Apart(blocks[k].All())
    ensures BlocksValid(blocks + [block]) && AllocationsValid(blocks + [block], allocs)
  {
    var blocks' := blocks + [block];
    forall i | 0 <= i < |allocs|
      ensures Held(blocks', allocs[i])
    {
      var k :| 0 <= k < |blocks| && allocs[i].Within(blocks[k].Start(), blocks[k].current);
      assert blocks'[k] == blocks[k];
    }
  }

  /** Room above `current` of the last block has not been handed out. */
  lemma BumpValid(blocks: seq<Block>, allocs: seq<Region>, a: Region)
    requires BlocksValid(blocks) && AllocationsValid(blocks, allocs) && blocks != []
    requires var last := blocks[|blocks| - 1]; a.Within(last.current, last.end)
    ensures var n := |blocks| - 1;
      var blocks' := blocks[n := blocks[n].(current := a.base + a.size)];
      BlocksValid(blocks') && AllocationsValid(blocks', allocs + [a])
  {
    var n := |blocks| - 1;
    var blocks' := blocks[n := blocks[n].(current := a.base + a.size)];
    assert a.Within(blocks'[n].Start(), blocks'[n].current);
    forall i | 0 <= i < |allocs|
      ensures Held(blocks', allocs[i]) && allocs[i].Apart(a)
    {
      var k :| 0 <= k < |blocks| && allocs[i].Within(blocks[k].Start(), blocks[k].current);
      assert allocs[i].Within(blocks'[k].Start(), blocks'[k].current);
      if k != n {
        assert blocks[k].All().Apart(blocks[n].All());
      }
    }
  }

  /** The region overlaps nothing in the used part of any block. */
  ghost predicate ClearOf(blocks: seq<Block>, a: Region) {
    forall k :: 0 <= k < |blocks| && blocks[k].Valid() ==> a.Apart(blocks[k].Used())
  }

  lemma UsedPart(blocks: seq<Block>, k: nat, ptr: nat, a: Region)
    requires BlocksValid(blocks) && ClearOf(blocks, a) && k < |blocks| && blocks[k].Start() <= ptr <= blocks[k].current
    ensures Region(ptr, blocks[k].current - ptr).Apart(a)
  {
    assert a.Apart(blocks[k].Used());
  }

  lemma UsedApart(blocks: seq<Block>, a: Region)
    requires BlocksValid(blocks) && blocks != []
    requires var last := blocks[|blocks| - 1]; a.Within(last.current, last.end)
    ensures forall n :: 0 <= n <= |blocks| ==> ClearOf(blocks[..n], a)
  {
    forall k | 0 <= k < |blocks| - 1
      ensures a.Apart(blocks[k].Used())
    {
      assert blocks[k].All().Apart(blocks[|blocks| - 1].All());
    }
  }

  /** An allocation of some size is owned by a block, and lies in its used part. */
  lemma HandedOutOwned(blocks: seq<Block>, allocs: seq<Region>, a: Region)
    requires BlocksValid(blocks) && AllocationsValid(blocks, allocs) && a in allocs && a.size > 0
    ensures exists k :: 0 <= k < |blocks| && blocks[k].Owns(a.base)
    ensures forall k :: 0 <= k < |blocks| && blocks[k].Owns(a.base) ==> a.base + a.size <= blocks[k].current
  {
    assert Held(blocks, a);
    var k :| 0 <= k < |blocks| && a.Within(blocks[k].Start(), blocks[k].current);
    assert blocks[k].Owns(a.base);
  }

  // ----- the arena -----

  class Arena {
    const child: Child
    var blocks: seq<Block>
    var mem: Memory
    ghost var allocs: seq<Region>  // every result with its size, oldest first

    ghost predicate Valid()
      reads this
    {
      Honest(child) && BlocksValid(blocks) && AllocationsValid(blocks, allocs)
    }

    constructor (child: Child, mem: Memory)
      requires Honest(child)
      ensures Valid() && blocks == [] && allocs == [] && this.child == child && this.mem == mem
    {
      this.child, this.mem := child, mem;
      blocks, allocs := [], [];
    }

    /** arena_append_block. */
    method AppendBlock(minSize: nat)
      requires Valid()
      modifies `blocks
      ensures Valid() && |blocks| == |old(blocks)| + 1 && blocks[..|old(blocks)|] == old(blocks)
      ensures var last := blocks[|blocks| - 1]; last.current == last.Start() && last.end >= last.Start() + minSize
    {
      var blockSize := (if ARENA_REGION_DEFAULT_CAPACITY > minSize then ARENA_REGION_DEFAULT_CAPACITY else minSize) + HEADER;
      var base := Place(blockSize);
      AppendValid(blocks, allocs, Block(base, base + HEADER, base + blockSize));
      blocks := blocks + [Block(base, base + HEADER, base + blockSize)];
    }

    /** align_alloc on the child allocator. */
    function Place(size: nat): (base: nat)
      requires Valid()
      reads this
      ensures base > 0
      ensures forall k :: 0 <= k < |blocks| ==> Region(base, size).Apart(blocks[k].All())
    {
      assert forall k :: 0 <= k < |blocks| ==> Given(blocks)[k] == blocks[k].All();
      child(Given(blocks), size)
    }

    /** The first half of arena_allocate_virt: the first aligned address above what the last block
        handed out. A block is appended exactly when the last one has no room at any aligned address. */
    method Reserve(alignment: nat, size: nat) returns (aligned: nat)
      requires Valid() && IsPow2(alignment)
      modifies `blocks
      ensures Valid() && |old(blocks)| <= |blocks| && blocks[..|old(blocks)|] == old(blocks)
      ensures blocks != [] && alignment > 0 && aligned % alignment == 0 && aligned > 0
      ensures Region(aligned, size).Within(blocks[|blocks| - 1].current, blocks[|blocks| - 1].end)
      ensures FirstAligned(blocks[|blocks| - 1].current, alignment, aligned)
      ensures old(blocks) != [] ==>
                |blocks| == |old(blocks)| + if old(blocks)[|old(blocks)| - 1].Room(alignment, size) then 0 else 1
    {
      if blocks == [] {
        AppendBlock(size);
      }
      var curr := blocks[|blocks| - 1].current;
      AlignUpIsNext(curr, alignment);
      AlignUpFirst(curr, alignment);
      aligned := AlignUp(curr, alignment);
      RoomAtFirst(blocks[|blocks| - 1], alignment, size, aligned);
      var padding := aligned - curr;
      if blocks[|blocks| - 1].end - curr < size + padding {
        AppendBlock(size + alignment);
        curr := blocks[|blocks| - 1].current;
        AlignUpIsNext(curr, alignment);
        AlignUpFirst(curr, alignment);
        aligned := AlignUp(curr, alignment);
      }
    }

    /** arena_allocate_virt: an aligned address, and, with Valid, a stretch inside one block that
        overlaps nothing handed out before. */
    method Allocate(alignment: nat, size: nat) returns (p: nat)
      requires Valid() && IsPow2(alignment)
      modifies `blocks, `allocs
      ensures Valid() && alignment > 0 && p % alignment == 0 && p > 0
      ensures allocs == old(allocs) + [Region(p, size)]
      ensures ClearOf(old(blocks), Region(p, size))
      ensures old(blocks) != [] ==>
                var last := old(blocks)[|old(blocks)| - 1];
                if last.Room(alignment, size)
                then |blocks| == |old(blocks)| && FirstAligned(last.current, alignment, p)
                else |blocks| == |old(blocks)| + 1
    {
      hide BlocksValid, AllocationsValid, Honest, ClearOf, Block.Room;
      p := Reserve(alignment, size);
      var n := |blocks| - 1;
      BumpValid(blocks, allocs, Region(p, size));
      UsedApart(blocks, Region(p, size));
      blocks := blocks[n := blocks[n].(current := p + size)];
      allocs := allocs + [Region(p, size)];
    }

    /** find_owner. */
    method FindOwner(ptr: nat) returns (r: Option<nat>)
      ensures r.Some? ==> r.value < |blocks| && blocks[r.value].Owns(ptr)
      ensures r.None? ==> forall k :: 0 <= k < |blocks| ==> !blocks[k].Owns(ptr)
    {
      for k := 0 to |blocks|
        invariant forall j :: 0 <= j < k ==> !blocks[j].Owns(ptr)
      {
        if blocks[k].Owns(ptr) {
          return Some(k);
        }
      }
      r := None;
    }

    /** arena_reallocate_virt. A pointer that no block owns is refused with NULL. Otherwise the
        result is a new allocation with the bytes of the old one, as many as fit, and nothing
        else in memory changes. */
    method Reallocate(ptr: nat, alignment: nat, newSize: nat) returns (q: nat)
      requires Valid() && IsPow2(alignment)
      modifies this
      ensures Valid()
      ensures q == 0 <==> ptr != 0 && forall k :: 0 <= k < |old(blocks)| ==> !old(blocks)[k].Owns(ptr)
      ensures q == 0 ==> blocks == old(blocks) && allocs == old(allocs) && mem == old(mem)
      ensures q != 0 ==> alignment > 0 && q % alignment == 0 && allocs == old(allocs) + [Region(q, newSize)]
      ensures SameOutside(old(mem), mem, Region(q, newSize))
      ensures q != 0 ==> forall a :: a in old(allocs) && a.base == ptr && ptr != 0 ==> Preserved(old(mem), mem, a, Region(q, newSize))
    {
      hide BlocksValid, AllocationsValid, Honest, ClearOf, Copied, Preserved;
      if ptr == 0 {
        q := Allocate(alignment, newSize);
        return;
      }
      var target := FindOwner(ptr);
      if target.None? {
        return 0;
      }
      ghost var before := blocks;
      var size := Minus(blocks[target.value].current, ptr);
      q := Allocate(alignment, newSize);
      var n := if size < newSize then size else newSize;
      CopyPreserves(before, old(allocs), target.value, ptr, mem, Region(q, newSize), n);
      mem := Copied(mem, q, ptr, n);
    }
  }

  const SIZE_T: int := 0x1_0000_0000_0000_0000

  /** The difference of two addresses, a size_t. */
  function Minus(a: nat, b: nat): (d: nat)
    ensures b <= a ==> d == a - b
  {
    if b <= a then a - b else (a - b) % SIZE_T
  }

  /** For a pointer into the part that was handed out, memcpy is called on stretches that do not
      overlap, as it must be; and it carries over what the old allocation held. */
  lemma CopyPreserves(blocks: seq<Block>, allocs: seq<Region>, k: nat, ptr: nat, mem: Memory, to: Region, n: nat)
    requires BlocksValid(blocks) && AllocationsValid(blocks, allocs) && ClearOf(blocks, to)
    requires k < |blocks| && blocks[k].Owns(ptr)
    requires var size := Minus(blocks[k].current, ptr); n == if size < to.size then size else to.size
    ensures ptr <= blocks[k].current ==> Region(ptr, n).Apart(Region(to.base, n))
    ensures SameOutside(mem, Copied(mem, to.base, ptr, n), to)
    ensures forall a :: a in allocs && a.base == ptr ==> Preserved(mem, Copied(mem, to.base, ptr, n), a, to)
  {
    hide BlocksValid, AllocationsValid;
    if ptr <= blocks[k].current {
      UsedPart(blocks, k, ptr, to);
    }
    forall a | a in allocs && a.base == ptr
      ensures Preserved(mem, Copied(mem, to.base, ptr, n), a, to)
    {
      if a.size > 0 {
        HandedOutOwned(blocks, allocs, a);
      }
      EnoughCopied(mem, a, to, n);
    }
  }

  lemma EnoughCopied(mem: Memory, a: Region, to: Region, n: nat)
    requires a.size <= n || to.size <= n
    ensures Preserved(mem, Copied(mem, to.base, a.base, n), a, to)
  {
    forall i: nat | to.base <= i < to.base + to.size && i < to.base + a.size
      ensures Copied(mem, to.base, a.base, n)(i) == mem(a.base + i - to.base)
    {
      assert i < to.base + n;
    }
  }

  ghost predicate SameOutside(mem: Memory, mem': Memory, r: Region) {
    forall a: nat :: !(r.base <= a < r.base + r.size) ==> mem'(a) == mem(a)
  }

  /** The bytes of `from` are in `to`, as many as both hold. */
  ghost predicate Preserved(mem: Memory, mem': Memory, from: Region, to: Region) {
    forall a: nat :: to.base <= a < to.base + to.size && a < to.base + from.size ==>
      mem'(a) == mem(from.base + a - to.base)
  }

  // ----- runs -----

  /** A request for new memory, or to resize what an earlier request of the run returned. */
  datatype Request =
    | New(alignment: nat, size: nat)
    | Resize(earlier: nat, alignment: nat, size: nat)

  ghost predicate Sensible(requests: seq<Request>) {
    forall i :: 0 <= i < |requests| ==>
      IsPow2(requests[i].alignment) && requests[i].size > 0 && (requests[i].Resize? ==> requests[i].earlier < i)
  }

  /** Over any run of requests every result is aligned and lies in one block's payload, no two
      results overlap, and a resized allocation starts with the bytes of the one it replaces. */
  method Run(arena: Arena, requests: seq<Request>) returns (ps: seq<nat>)
    requires arena.Valid() && Sensible(requests)
    modifies arena
    ensures arena.Valid() && |ps| == |requests|
    ensures forall i :: 0 <= i < |ps| ==> requests[i].alignment > 0 && ps[i] % requests[i].alignment == 0
    ensures forall i :: 0 <= i < |ps| ==> Held(arena.blocks, Region(ps[i], requests[i].size))
    ensures forall i, j :: 0 <= i < j < |ps| ==> Region(ps[i], requests[i].size).Apart(Region(ps[j], requests[j].size))
    ensures forall i :: 0 <= i < |ps| && requests[i].Resize? ==> Resized(arena.mem, requests, ps, i)
  {
    ps := [];
    ghost var m := |arena.allocs|;
    for n := 0 to |requests|
      invariant arena.Valid() && |ps| == n && Results(arena.allocs, m, requests, ps)
      invariant forall i :: 0 <= i < n ==> requests[i].alignment > 0 && ps[i] % requests[i].alignment == 0
      invariant forall i :: 0 <= i < n && requests[i].Resize? ==> Resized(arena.mem, requests, ps, i)
    {
      var p := Serve(arena, requests, ps, m);
      ps := ps + [p];
    }
  }

  ghost predicate Results(allocs: seq<Region>, m: nat, requests: seq<Request>, ps: seq<nat>) {
    |allocs| == m + |ps| && |ps| <= |requests| &&
    forall i :: 0 <= i < |ps| ==> allocs[m + i] == Region(ps[i], requests[i].size)
  }

  ghost predicate Resized(mem: Memory, requests: seq<Request>, ps: seq<nat>, i: nat)
    requires i < |ps| <= |requests| && requests[i].Resize?
  {
    requests[i].earlier < i &&
    Preserved(mem, mem, Region(ps[requests[i].earlier], requests[requests[i].earlier].size), Region(ps[i], requests[i].size))
  }

  method Serve(arena: Arena, requests: seq<Request>, ps: seq<nat>, ghost m: nat) returns (p: nat)
    requires arena.Valid() && Sensible(requests) && |ps| < |requests| && Results(arena.allocs, m, requests, ps)
    requires forall i :: 0 <= i < |ps| && requests[i].Resize? ==> Resized(arena.mem, requests, ps, i)
    modifies arena
    ensures arena.Valid() && Results(arena.allocs, m, requests, ps + [p])
    ensures requests[|ps|].alignment > 0 && p % requests[|ps|].alignment == 0
    ensures forall i :: 0 <= i <= |ps| && requests[i].Resize? ==> Resized(arena.mem, requests, ps + [p], i)
  {
    hide BlocksValid, AllocationsValid, Honest, SameOutside, Preserved, Resized;
    ghost var mem0 := arena.mem;
    var n := |ps|;
    match requests[n] {
      case New(alignment, size) =>
        p := arena.Allocate(alignment, size);
        SameEverywhere(mem0, Region(p, size));
      case Resize(earlier, alignment, size) =>
        ghost var a := Region(ps[earlier], requests[earlier].size);
        assert arena.allocs[m + earlier] == a;
        HandedOutOwned(arena.blocks, arena.allocs, a);
        p := arena.Reallocate(ps[earlier], alignment, size);
        assert Preserved(mem0, arena.mem, a, Region(p, size));
    }
    StillResized(mem0, arena.mem, arena.blocks, arena.allocs, m, requests, ps, p);
  }

  lemma SameEverywhere(mem: Memory, r: Region)
    ensures SameOutside(mem, mem, r)
  {
  }

  /** Writing the newest result leaves the bytes of the others alone. */
  lemma StillResized(mem: Memory, mem': Memory, blocks: seq<Block>, allocs: seq<Region>, m: nat,
                     requests: seq<Request>, ps: seq<nat>, p: nat)
    requires |ps| < |requests| && AllocationsValid(blocks, allocs) && Results(allocs, m, requests, ps + [p])
    requires Sensible(requests) && SameOutside(mem, mem', Region(p, requests[|ps|].size))
    requires forall i :: 0 <= i < |ps| && requests[i].Resize? ==> Resized(mem, requests, ps, i)
    requires requests[|ps|].Resize? ==>
               var e := requests[|ps|].earlier;
               Preserved(mem, mem', Region(ps[e], requests[e].size), Region(p, requests[|ps|].size))
    ensures forall i :: 0 <= i <= |ps| && requests[i].Resize? ==> Resized(mem', requests, ps + [p], i)
  {
    ApartFromEarlier(blocks, allocs, m, requests, ps, p);
    var last := Region(p, requests[|ps|].size);
    forall i | 0 <= i <= |ps| && requests[i].Resize?
      ensures Resized(mem', requests, ps + [p], i)
    {
      var e := requests[i].earlier;
      var from, to := Region(ps[e], requests[e].size), if i == |ps| then last else Region(ps[i], requests[i].size);
      if i < |ps| {
        assert Resized(mem, requests, ps, i);
        PreservedStays(mem, mem', from, to, last);
      } else {
        PreservedNow(mem, mem', from, last);
      }
    }
  }

  lemma PreservedStays(mem: Memory, mem': Memory, from: Region, to: Region, last: Region)
    requires Preserved(mem, mem, from, to) && SameOutside(mem, mem', last) && from.Apart(last) && to.Apart(last)
    ensures Preserved(mem', mem', from, to)
  {
  }

  lemma PreservedNow(mem: Memory, mem': Memory, from: Region, last: Region)
    requires Preserved(mem, mem', from, last) && SameOutside(mem, mem', last) && from.Apart(last)
    ensures Preserved(mem', mem', from, last)
  {
  }

  /** The newest result overlaps none before it. */
  lemma ApartFromEarlier(blocks: seq<Block>, allocs: seq<Region>, m: nat, requests: seq<Request>, ps: seq<nat>, p: nat)
    requires AllocationsValid(blocks, allocs) && |ps| < |requests| && Results(allocs, m, requests, ps + [p])
    ensures forall i :: 0 <= i < |ps| ==> Region(ps[i], requests[i].size).Apart(Region(p, requests[|ps|].size))
  {
    forall i | 0 <= i < |ps|
      ensures Region(ps[i], requests[i].size).Apart(Region(p, requests[|ps|].size))
    {
      assert allocs[m + i] == Region((ps + [p])[i], requests[i].size);
      assert allocs[m + |ps|] == Region((ps + [p])[|ps|], requests[|ps|].size);
      assert allocs[m + i].Apart(allocs[m + |ps|]);
    }
  }
}
