// kernel/src/allocator/linked_list.rs: the intrusive list.  A free region holds its own
// node in its first two words: the size, and the address of the next free region.
// `mem` maps the address of an 8-byte word to its value; 0 stands for `None`, which is
// how `Option<&mut ListNode>` is stored.
module LinkedListMemory {
  import opened Wrappers
  import opened Bits
  import opened Alignment
  import opened Regions
  import opened LinkedListModel

  type Memory = map<nat, nat>

  /** The address of node `i`, or null behind the last one. */
  function Link(free: seq<Region>, i: nat): nat {
    if i < |free| then free[i].start else 0
  }

  /** Region `i` holds its node, which points to region `i + 1`. */
  ghost predicate NodeAt(mem: Memory, free: seq<Region>, i: nat)
    requires i < |free|
  {
    var node := free[i];
    && node.start != 0
    && node.start in mem && mem[node.start] == node.size
    && node.start + 8 in mem && mem[node.start + 8] == Link(free, i + 1)
  }

  /** The links found in memory from `head` on are exactly the regions of `free`, in order. */
  ghost predicate Chain(mem: Memory, head: nat, free: seq<Region>) {
    && head == Link(free, 0)
    && forall i | 0 <= i < |free| :: NodeAt(mem, free, i)
  }

  /** Where one gets from `p` after `n` hops along the next pointers. */
  ghost function Follow(mem: Memory, p: nat, n: nat): nat
    decreases n
  {
    if n == 0 then p
    else if p + 8 in mem then Follow(mem, mem[p + 8], n - 1)
    else 0
  }

  /** A free list whose regions do not meet and can each hold a node. */
  ghost predicate Tidy(free: seq<Region>) {
    && (forall i | 0 <= i < |free| :: free[i].start > 0 && free[i].size >= NODE_SIZE && free[i].End() < W64)
    && forall i, j | 0 <= i < j < |free| :: Apart(free[i], free[j])
  }

  ghost predicate Apart(r: Region, q: Region) {
    r.End() <= q.start || q.End() <= r.start
  }

  /** After n hops one is at the n-th region. */
  lemma {:induction false} HopsVisitRegions(mem: Memory, head: nat, free: seq<Region>, n: nat)
    requires Chain(mem, head, free) && n <= |free|
    ensures Follow(mem, head, n) == Link(free, n)
    decreases n
  {
    if n == 0 {
    } else {
      assert NodeAt(mem, free, 0);
      assert forall i | 0 <= i < |free[1..]| :: free[1..][i] == free[i + 1];
      assert Chain(mem, mem[head + 8], free[1..]) by {
        forall i | 0 <= i < |free[1..]|
          ensures NodeAt(mem, free[1..], i)
        {
          assert NodeAt(mem, free, i + 1);
        }
      }
      HopsVisitRegions(mem, mem[head + 8], free[1..], n - 1);
    }
  }

  /** The list in memory visits its regions in order, never comes to an address twice, and ends. */
  lemma ChainIsAcyclic(mem: Memory, head: nat, free: seq<Region>)
    requires Chain(mem, head, free) && Tidy(free)
    ensures forall n: nat | n <= |free| :: Follow(mem, head, n) == Link(free, n)
    ensures forall i: nat, j: nat | i < j <= |free| :: Follow(mem, head, i) != Follow(mem, head, j)
    ensures Follow(mem, head, |free|) == 0
  {
    forall n: nat | n <= |free|
      ensures Follow(mem, head, n) == Link(free, n)
    {
      HopsVisitRegions(mem, head, free, n);
    }
    forall i: nat, j: nat | i < j <= |free|
      ensures Link(free, i) != Link(free, j)
    {
      if j < |free| {
        assert Apart(free[i], free[j]);
      }
    }
  }

  /** Only words inside `where` may differ. */
  ghost predicate ChangedOnlyIn(m: Memory, m': Memory, where: seq<Region>) {
    forall a: nat | (forall i | 0 <= i < |where| :: !where[i].Has(a)) ::
      (a in m <==> a in m') && (a in m ==> m[a] == m'[a])
  }

  ghost predicate SameWords(m: Memory, m': Memory, r: Region) {
    forall a: nat | r.Has(a) :: (a in m <==> a in m') && (a in m ==> m[a] == m'[a])
  }

  class LinkedListAllocator {
    var head: nat
    var mem: Memory
    ghost var heap: Heap

    ghost predicate Valid()
      reads this
    {
      Tidy(heap.free) && Chain(mem, head, heap.free)
    }

    /** `new` followed by `init`, on memory with any contents. */
    constructor (start: nat, size: nat, contents: Memory)
      requires 0 < start && start + size < W64 && start % NODE_ALIGN == 0 && size >= NODE_SIZE
      ensures Valid() && heap == InitialHeap(start, size)
      ensures ChangedOnlyIn(contents, mem, [Region(start, size)])
    {
      head, mem := 0, contents;
      heap := InitialHeap(start, size);
      new;
      NodeAddress(start);
      var _ := AddFreeRegion(start, size, []);
      assert [Region(start, size)] + [] == heap.free;
      assert [Region(start, size)][0].Has(start) && [Region(start, size)][0].Has(start + 8);
    }

    /** Writes a node into the region and makes it the head.  Panics exactly when one of the
        two asserts fails. */
    method AddFreeRegion(addr: nat, size: nat, ghost free: seq<Region>) returns (r: Outcome<()>)
      requires Chain(mem, head, free) && addr != 0 && addr < W64
      requires forall i | 0 <= i < |free| :: Apart(free[i], Region(addr, size)) && free[i].size >= NODE_SIZE
      modifies `head, `mem
      ensures r.Panicked? <==> AlignUp(addr, NODE_ALIGN) != Returned(addr) || size < NODE_SIZE
      ensures r.Panicked? ==> mem == old(mem) && head == old(head)
      ensures r.Returned? ==> Chain(mem, head, [Region(addr, size)] + free)
      ensures r.Returned? ==> mem == old(mem)[addr := size][addr + 8 := old(head)]
    {
      if AlignUp(addr, NODE_ALIGN) != Returned(addr) || size < NODE_SIZE {
        return Panicked;
      }
      var next := head;
      head := 0;
      mem := mem[addr := size][addr + 8 := next];
      head := addr;
      ghost var free' := [Region(addr, size)] + free;
      forall i | 0 <= i < |free'|
        ensures NodeAt(mem, free', i)
      {
        if i > 0 {
          assert NodeAt(old(mem), free, i - 1);
        }
      }
      return Returned(());
    }

    /** Finds the first region in list order that can host the block, and unlinks exactly that
        node. */
    method FindRegion(size: nat, align: nat, ghost free: seq<Region>)
      returns (r: Outcome<Option<(nat, nat)>>)
      requires Chain(mem, head, free) && Tidy(free) && 0 < align < W64
      modifies `head, `mem
      ensures match Search(free, size, align)
              case Panicked => r == Panicked && mem == old(mem) && head == old(head)
              case Returned(None) => r == Returned(None) && mem == old(mem) && head == old(head)
              case Returned(Some((i, start))) =>
                && i < |free| && r == Returned(Some((free[i].start, start)))
                && AllocFromRegion(free[i], size, align) == Returned(Some(start))
                && Chain(mem, head, Remove(free, i))
                && free[i].start in mem && mem[free[i].start] == free[i].size
                && ChangedOnlyIn(old(mem), mem, free)
    {
      // `current` is the cursor: 0 for the allocator's own head node
      var current := 0;
      ghost var i := 0;
      while true
        invariant 0 <= i <= |free| && current == (if i == 0 then 0 else free[i - 1].start)
        invariant mem == old(mem) && head == old(head)
        invariant forall j | 0 <= j < i :: AllocFromRegion(free[j], size, align) == Returned(None)
        decreases |free| - i
      {
        if i > 0 {
          assert NodeAt(mem, free, i - 1);
        }
        var region := if current == 0 then head else mem[current + 8];
        assert region == Link(free, i);
        SearchSkips(free, i, size, align);
        if region == 0 {
          return Returned(None);
        }
        assert NodeAt(mem, free, i);
        match AllocFromRegion(Region(region, mem[region]), size, align) {
          case Panicked =>
            return Panicked;
          case Returned(Some(start)) =>
            var next := mem[region + 8];
            mem := mem[region + 8 := 0];
            if current == 0 {
              head := next;
            } else {
              mem := mem[current + 8 := next];
            }
            Unlinked(old(mem), mem, head, free, i);
            return Returned(Some((region, start)));
          case Returned(None) =>
            current := region;
            i := i + 1;
        }
      }
    }

    /** `GlobalAlloc::alloc`: refines `AllocStep`, and writes to free memory only.  The
        "overflow" expect and the asserts of `add_free_region` never fire. */
    method Alloc(layout: Layout) returns (r: Outcome<Option<nat>>)
      requires Valid() && layout.Valid()
      modifies this
      ensures Valid() && heap == AllocStep(old(heap), layout).0 && r == AllocStep(old(heap), layout).1
      ensures if r.Returned? && r.value.Some?
              then SizeAlign(layout).Returned? && heap.live == old(heap).live + [Answered(layout, r.value.value)]
              else heap == old(heap)
      ensures ChangedOnlyIn(old(mem), mem, old(heap).free)
    {
      AllocAnswer(heap, layout);
      match SizeAlign(layout) {
        case Panicked => return Panicked;
        case Returned(Adjusted(size, align)) =>
          SizeAlignMeaning(layout);
          var found := FindRegion(size, align, heap.free);
          match found {
            case Panicked => return Panicked;
            case Returned(None) => return Returned(None);
            case Returned(Some((region, start))) =>
              ghost var i := Search(heap.free, size, align).value.value.0;
              BlockPlace(layout, size, align, heap.free[i], start);
              r := Commit(region, start, size, layout, i);
          }
      }
    }

    /** The rest of `alloc`, once a region is unlinked: what lies behind the block goes back to
        the list. */
    method Commit(region: nat, start: nat, size: nat, ghost layout: Layout, ghost i: nat)
      returns (r: Outcome<Option<nat>>)
      requires i < |heap.free| && Tidy(heap.free) && Chain(mem, head, Remove(heap.free, i))
      requires heap.free[i].start == region && region in mem && mem[region] == heap.free[i].size
      requires 0 < size && WellPlaced(heap.free[i], start, start + size)
      modifies this
      ensures Valid() && r == Returned(Some(start)) && heap == Carve(old(heap), layout, i, start, size)
      ensures ChangedOnlyIn(old(mem), mem, old(heap).free)
    {
      if start + size >= W64 {
        return Panicked; // .expect("overflow")
      }
      var end := start + size;
      var excess := region + mem[region] - end;
      TidyTail(heap.free, i, end);
      if excess > 0 {
        NodeAddress(end);
        var added := AddFreeRegion(end, excess, Remove(heap.free, i));
        if added.Panicked? {
          return Panicked;
        }
        assert heap.free[i].Has(end) && heap.free[i].Has(end + 8);
      } else {
        assert TailOf(heap.free[i], end) + Remove(heap.free, i) == Remove(heap.free, i);
      }
      heap := Carve(heap, layout, i, start, size);
      return Returned(Some(start));
    }

    /** `GlobalAlloc::dealloc`: the caller returns a block it holds, with its layout.  Never
        panics, and writes to that block only. */
    method Dealloc(ptr: nat, layout: Layout, ghost i: nat) returns (r: Outcome<()>)
      requires Valid() && i < |heap.live|
      requires layout.Valid() && SizeAlign(layout).Returned?
      requires heap.live[i] == Block(Region(ptr, SizeAlign(layout).value.size), layout)
      requires 0 < ptr && ptr % NODE_ALIGN == 0 && heap.live[i].region.End() < W64
      requires forall k | 0 <= k < |heap.free| :: Apart(heap.free[k], heap.live[i].region)
      modifies this
      ensures Valid() && heap == FreeStep(old(heap), i) && r.Returned?
      ensures ChangedOnlyIn(old(mem), mem, [old(heap).live[i].region])
    {
      SizeAlignMeaning(layout);
      var size := SizeAlign(layout).value.size;
      NodeAddress(ptr);
      r := AddFreeRegion(ptr, size, heap.free);
      assert [heap.live[i].region][0].Has(ptr) && [heap.live[i].region][0].Has(ptr + 8);
      heap := FreeStep(heap, i);
    }

    /** A client stores to a word of a block it holds. */
    method ClientWrite(ghost i: nat, a: nat, value: nat)
      requires Valid() && i < |heap.live| && heap.live[i].region.Has(a)
      requires a % 8 == 0 && heap.live[i].region.start % NODE_ALIGN == 0
      requires forall k | 0 <= k < |heap.free| ::
                 heap.free[k].start % NODE_ALIGN == 0 && Apart(heap.free[k], heap.live[i].region)
      modifies `mem
      ensures Valid() && mem == old(mem)[a := value]
      ensures ChangedOnlyIn(old(mem), mem, [heap.live[i].region])
    {
      assert [heap.live[i].region][0].Has(a);
      mem := mem[a := value];
      forall k | 0 <= k < |heap.free|
        ensures NodeAt(mem, heap.free, k)
      {
        assert NodeAt(old(mem), heap.free, k);
      }
    }
  }

  lemma NodeAddress(addr: nat)
    requires addr % NODE_ALIGN == 0 && addr + NODE_SIZE <= W64
    ensures AlignUp(addr, NODE_ALIGN) == Returned(addr)
  {
    assert Pow2(3) == 8;
    AlignUpOfAligned(addr, NODE_ALIGN);
  }

  /** [start, end) lies in the region, and what remains behind it is nothing or a node. */
  ghost predicate WellPlaced(region: Region, start: nat, end: nat) {
    && region.start <= start && end < W64
    && (end == region.End() || (end + NODE_SIZE <= region.End() && end % NODE_ALIGN == 0))
  }

  lemma BlockPlace(layout: Layout, size: nat, align: nat, region: Region, start: nat)
    requires layout.Valid() && SizeAlign(layout) == Returned(Adjusted(size, align))
    requires 0 < align < W64 && AllocFromRegion(region, size, align) == Returned(Some(start))
    ensures WellPlaced(region, start, start + size)
  {
    SizeAlignMeaning(layout);
    AllocFromRegionMeaning(region, size, align);
    AllocFromRegionBounds(region, size, align, start);
    AdjustedAlignment(layout, start);
    NodeAligned(start, size);
  }

  /** Replacing a region by its tail keeps the list tidy. */
  lemma TidyTail(free: seq<Region>, i: nat, end: nat)
    requires Tidy(free) && i < |free| && free[i].start < end
    requires end == free[i].End() || end + NODE_SIZE <= free[i].End()
    ensures Tidy(Remove(free, i)) && Tidy(TailOf(free[i], end) + Remove(free, i))
    ensures forall j | 0 <= j < |Remove(free, i)| ::
              Apart(Remove(free, i)[j], Region(end, free[i].End() - end)) && Remove(free, i)[j].size >= NODE_SIZE
  {
    var rest := Remove(free, i);
    forall j | 0 <= j < |rest|
      ensures rest[j] == free[if j < i then j else j + 1]
      ensures Apart(rest[j], free[i])
    {
    }
  }

  /** Skipping regions that cannot host the block does not change the search. */
  lemma {:induction false} SearchSkips(free: seq<Region>, i: nat, size: nat, align: nat)
    requires i <= |free| && 0 < align < W64
    requires forall j | 0 <= j < i :: AllocFromRegion(free[j], size, align) == Returned(None)
    ensures i == |free| ==> Search(free, size, align) == Returned(None)
    ensures i < |free| ==>
              match AllocFromRegion(free[i], size, align)
              case Panicked => Search(free, size, align) == Panicked
              case Returned(Some(start)) => Search(free, size, align) == Returned(Some((i, start)))
              case Returned(None) => true
    decreases i
  {
    if i == 0 {
    } else {
      var tail := free[1..];
      assert forall j | 0 <= j < |tail| :: tail[j] == free[j + 1];
      SearchSkips(tail, i - 1, size, align);
    }
  }

  /** The words of two nodes are different ones. */
  lemma NodesApart(free: seq<Region>, i: nat, j: nat)
    requires Tidy(free) && i < |free| && j < |free| && i != j
    ensures free[i].start != free[j].start && free[i].start + 8 != free[j].start && free[i].start != free[j].start + 8
  {
    assert if i < j then Apart(free[i], free[j]) else Apart(free[j], free[i]);
  }

  lemma NodeStays(m: Memory, m': Memory, free: seq<Region>, i: nat, k: nat)
    requires i < |free| && Tidy(free) && Chain(m, Link(free, 0), free) && k < |Remove(free, i)|
    requires m' == if i == 0 then m[free[i].start + 8 := 0]
                   else m[free[i].start + 8 := 0][free[i - 1].start + 8 := Link(free, i + 1)]
    ensures NodeAt(m', Remove(free, i), k)
  {
    var rest := Remove(free, i);
    var j := if k < i then k else k + 1;
    assert rest[k] == free[j] && NodeAt(m, free, j);
    NodesApart(free, i, j);
    if i > 0 && j != i - 1 {
      NodesApart(free, i - 1, j);
    }
    assert Link(rest, k + 1) == if j + 1 == i then Link(free, i + 1) else Link(free, j + 1);
  }

  /** Taking node `i` out of the chain. */
  lemma Unlinked(m: Memory, m': Memory, head: nat, free: seq<Region>, i: nat)
    requires i < |free| && Tidy(free) && Chain(m, Link(free, 0), free)
    requires var next := Link(free, i + 1);
             if i == 0 then head == next && m' == m[free[i].start + 8 := 0]
             else head == Link(free, 0) && m' == m[free[i].start + 8 := 0][free[i - 1].start + 8 := next]
    ensures Chain(m', head, Remove(free, i)) && ChangedOnlyIn(m, m', free)
    ensures free[i].start in m' && m'[free[i].start] == free[i].size
  {
    assert NodeAt(m, free, i);
    forall k | 0 <= k < |Remove(free, i)|
      ensures NodeAt(m', Remove(free, i), k)
    {
      NodeStays(m, m', free, i, k);
    }
    assert free[i].Has(free[i].start + 8);
    if i > 0 {
      assert free[i - 1].Has(free[i - 1].start + 8);
    }
  }

  // ---- The allocator at work, on a sound heap ----

  lemma PiecesApart(h: Heap, i: nat, j: nat)
    requires Inv(h) && i < |h.Pieces()| && j < |h.Pieces()| && i != j
    requires h.Pieces()[i].size > 0 && h.Pieces()[j].size > 0
    ensures Apart(h.Pieces()[i], h.Pieces()[j])
  {
    var s := h.Pieces();
    AtMostOneOwnerMeansDisjoint(s, i, j);
    assert !(s[i].Has(s[i].start) && s[j].Has(s[i].start));
    assert !(s[i].Has(s[j].start) && s[j].Has(s[j].start));
  }

  lemma FreePiece(h: Heap, k: nat)
    requires Inv(h) && k < |h.free|
    ensures h.Pieces()[k] == h.free[k] && h.free[k].size > 0 && h.free[k].start % NODE_ALIGN == 0
  {
    assert h.free[k] in h.free;
  }

  lemma LivePiece(h: Heap, i: nat)
    requires Inv(h) && i < |h.live|
    ensures |h.free| + i < |h.Pieces()| && h.Pieces()[|h.free| + i] == h.live[i].region
    ensures h.live[i].region.size > 0
  {
    assert BlockOk(h.live[i]);
  }

  lemma LiveApart(h: Heap, i: nat, k: nat)
    requires Inv(h) && i < |h.live| && k < |h.free|
    ensures Apart(h.free[k], h.live[i].region) && h.free[k].start % NODE_ALIGN == 0
  {
    FreePiece(h, k);
    LivePiece(h, i);
    PiecesApart(h, k, |h.free| + i);
  }

  lemma LivePairApart(h: Heap, i: nat, k: nat)
    requires Inv(h) && i < |h.live| && k < |h.live| && i != k
    ensures Apart(h.live[k].region, h.live[i].region)
  {
    LivePiece(h, k);
    LivePiece(h, i);
    PiecesApart(h, |h.free| + k, |h.free| + i);
  }

  lemma PieceInside(h: Heap, i: nat)
    requires Inv(h) && i < |h.Pieces()| && h.Pieces()[i].size > 0
    ensures 0 < h.Pieces()[i].start && h.Pieces()[i].End() <= h.hi < W64
  {
    InvMeansSafe(h);
  }

  lemma FreedBlock(h: Heap, i: nat)
    requires Inv(h) && i < |h.live|
    ensures var b := h.live[i];
            && b.layout.Valid() && SizeAlign(b.layout).Returned?
            && b.region.size == SizeAlign(b.layout).value.size
            && 0 < b.region.start && b.region.start % NODE_ALIGN == 0 && b.region.End() < W64
    ensures forall k | 0 <= k < |h.free| ::
              h.free[k].start % NODE_ALIGN == 0 && Apart(h.free[k], h.live[i].region)
  {
    assert BlockOk(h.live[i]);
    LivePiece(h, i);
    PieceInside(h, |h.free| + i);
    forall k | 0 <= k < |h.free|
      ensures h.free[k].start % NODE_ALIGN == 0 && Apart(h.free[k], h.live[i].region)
    {
      LiveApart(h, i, k);
    }
  }

  ghost predicate Touches(h: Heap, op: Op, b: Block) {
    (op.Free? || op.Write?) && op.index < |h.live| && h.live[op.index] == b
  }

  /** One client operation on a sound heap.  The heap stays sound, freeing does not panic, and
      every live block that the client itself does not write to or free keeps its contents. */
  method Perform(a: LinkedListAllocator, op: Op) returns (r: Outcome<Option<nat>>)
    requires a.Valid() && Inv(a.heap) && Legal(a.heap, op)
    modifies a
    ensures a.Valid() && Inv(a.heap) && a.heap == Step(old(a.heap), op)
    ensures op.Alloc? ==> r == AllocStep(old(a.heap), op.layout).1
    ensures op.Alloc? && r.Returned? && r.value.Some? ==>
              && SizeAlign(op.layout).Returned?
              && a.heap.live == old(a.heap).live + [Answered(op.layout, r.value.value)]
              && r.value.value % op.layout.align == 0 && op.layout.size <= SizeAlign(op.layout).value.size
    ensures op.Free? ==> a.heap.live == Remove(old(a.heap).live, op.index)
    ensures !op.Free? && !(op.Alloc? && r.Returned? && r.value.Some?) ==> a.heap == old(a.heap)
    ensures !op.Alloc? ==> r.Returned?
    ensures op.Write? ==> a.mem == old(a.mem)[op.addr := op.value]
    ensures forall b | b in old(a.heap).live && !Touches(old(a.heap), op, b) ::
              b in a.heap.live && SameWords(old(a.mem), a.mem, b.region)
  {
    ghost var h := a.heap;
    StepKeepsInv(h, op);
    r := Returned(None);
    match op {
      case Alloc(layout) =>
        r := a.Alloc(layout);
        assert r.Returned? && r.value.Some? ==> BlockOk(a.heap.live[|a.heap.live| - 1]);
        AllocSparesLive(h, layout, old(a.mem), a.mem);
      case Free(i, ptr, layout) =>
        FreedBlock(h, i);
        var done := a.Dealloc(ptr, layout, i);
        FreeSparesLive(h, i, old(a.mem), a.mem);
      case Write(i, addr, value) =>
        FreedBlock(h, i);
        a.ClientWrite(i, addr, value);
        FreeSparesLive(h, i, old(a.mem), a.mem);
    }
  }

  lemma AllocSparesLive(h: Heap, layout: Layout, m: Memory, m': Memory)
    requires Inv(h) && layout.Valid() && ChangedOnlyIn(m, m', h.free)
    ensures forall b | b in h.live :: b in AllocStep(h, layout).0.live && SameWords(m, m', b.region)
  {
    forall b | b in h.live
      ensures SameWords(m, m', b.region)
    {
      var k :| 0 <= k < |h.live| && h.live[k] == b;
      FreedBlock(h, k);
    }
  }

  lemma FreeSparesLive(h: Heap, i: nat, m: Memory, m': Memory)
    requires Inv(h) && i < |h.live| && ChangedOnlyIn(m, m', [h.live[i].region])
    ensures forall b | b in h.live && b != h.live[i] ::
              b in FreeStep(h, i).live && SameWords(m, m', b.region)
  {
    forall b | b in h.live && b != h.live[i]
      ensures b in FreeStep(h, i).live && SameWords(m, m', b.region)
    {
      var k :| 0 <= k < |h.live| && h.live[k] == b;
      LivePairApart(h, i, k);
      assert FreeStep(h, i).live[if k < i then k else k - 1] == b;
    }
  }

  /** Nobody frees or writes to the block during the run. */
  ghost predicate LeftAlone(h: Heap, ops: seq<Op>, b: Block)
    requires LegalRun(h, ops)
    decreases |ops|
  {
    ops != [] ==> !Touches(h, ops[0], b) && LeftAlone(Step(h, ops[0]), ops[1..], b)
  }

  /** Any legal run of client operations: the memory always holds the list of the model, and a
      block that is left alone keeps every word, whatever happens around it. */
  method Serve(a: LinkedListAllocator, ops: seq<Op>)
    requires a.Valid() && Inv(a.heap) && LegalRun(a.heap, ops)
    modifies a
    ensures a.Valid() && Inv(a.heap) && a.heap == Run(old(a.heap), ops)
    ensures forall b | b in old(a.heap).live && LeftAlone(old(a.heap), ops, b) ::
              b in a.heap.live && SameWords(old(a.mem), a.mem, b.region)
    decreases |ops|
  {
    if ops != [] {
      var _ := Perform(a, ops[0]);
      Serve(a, ops[1..]);
    }
  }
}
