// kernel/src/allocator/linked_list.rs: what the allocator does, on values.
// The intrusive list in memory is in linked_list_memory.dfy.
module LinkedListModel {
  import opened Wrappers
  import opened Bits
  import opened Alignment
  import opened Regions

  const NODE_SIZE := 16
  const NODE_ALIGN := 8

  datatype Adjusted = Adjusted(size: nat, align: nat)

  /** `size_align`: raise the alignment to that of a node, pad the size to it, and make room
      for a node.  Raising the alignment can push the padded size past isize::MAX. */
  function SizeAlign(layout: Layout): Outcome<Adjusted>
    requires layout.Valid()
  {
    var align := Max(layout.align, NODE_ALIGN);
    if layout.size > MAX_LAYOUT - align then Panicked
    else match AlignUp(layout.size, align)
      case Panicked => Panicked
      case Returned(padded) => Returned(Adjusted(Max(padded, NODE_SIZE), align))
  }

  lemma SizeAlignMeaning(layout: Layout)
    requires layout.Valid()
    ensures SizeAlign(layout).Panicked? <==> layout.size > MAX_LAYOUT - Max(layout.align, NODE_ALIGN)
    ensures SizeAlign(layout).Returned? ==>
              var Adjusted(size, align) := SizeAlign(layout).value;
              && layout.size <= size < W64 && NODE_SIZE <= size && size % NODE_ALIGN == 0
              && align == Max(layout.align, NODE_ALIGN) && IsPow2(align)
  {
    var align := Max(layout.align, NODE_ALIGN);
    assert Pow2(3) == 8;
    Pow2Order(NODE_ALIGN, align);
    if layout.size <= MAX_LAYOUT - align {
      AlignUpIsLeastMultiple(layout.size, align);
    }
  }

  /** No more is taken than padding to the alignment, or a node, requires. */
  lemma SizeAlignIsLeast(layout: Layout)
    requires layout.Valid() && SizeAlign(layout).Returned?
    ensures var Adjusted(size, align) := SizeAlign(layout).value;
            size == NODE_SIZE || IsLeastMultiple(size, layout.size, align)
  {
    assert Pow2(3) == 8;
    AlignUpIsLeastMultiple(layout.size, Max(layout.align, NODE_ALIGN));
  }

  /** What is aligned for the adjusted layout is aligned for the layout and for a node. */
  lemma AdjustedAlignment(layout: Layout, x: nat)
    requires layout.Valid() && x % Max(layout.align, NODE_ALIGN) == 0
    ensures x % layout.align == 0 && x % NODE_ALIGN == 0
  {
    assert Pow2(3) == 8;
    Pow2Order(NODE_ALIGN, Max(layout.align, NODE_ALIGN));
    Pow2Order(layout.align, Max(layout.align, NODE_ALIGN));
  }

  /** `alloc_from_region`: where the block would start, if the region can host it. */
  function AllocFromRegion(region: Region, size: nat, align: nat): Outcome<Option<nat>>
    requires 0 < align < W64
  {
    match AlignUp(region.start, align)
    case Panicked => Panicked
    case Returned(start) =>
      var end := start + size;
      if end >= W64 then Returned(None) // checked_add
      else if region.End() >= W64 then Panicked
      else if end > region.End() then Returned(None)
      else
        var excess := region.End() - end;
        if 0 < excess < NODE_SIZE then Returned(None)
        else Returned(Some(start))
  }

  /** The block goes to the least aligned address of the region, and is accepted exactly when
      it then fills the region or leaves room for a node. */
  lemma AllocFromRegionMeaning(region: Region, size: nat, align: nat)
    requires IsPow2(align) && align < W64
    ensures AllocFromRegion(region, size, align).Panicked? ==>
              region.start + align >= W64 || region.End() >= W64
    ensures region.start + align < W64 && region.End() < W64 ==>
              var start := AlignUp(region.start, align).value;
              && IsLeastMultiple(start, region.start, align)
              && AllocFromRegion(region, size, align) ==
                 Returned(if start + size == region.End() || start + size + NODE_SIZE <= region.End()
                          then Some(start) else None)
    ensures forall start :: AllocFromRegion(region, size, align) == Returned(Some(start)) ==>
              && region.start <= start < region.start + align && start % align == 0
              && (start + size == region.End() || start + size + NODE_SIZE <= region.End())
  {
    AlignUpIsLeastMultiple(region.start, align);
  }

  lemma AllocFromRegionBounds(region: Region, size: nat, align: nat, start: nat)
    requires IsPow2(align) && align < W64 && AllocFromRegion(region, size, align) == Returned(Some(start))
    ensures region.start <= start && start + size < W64 && region.End() < W64
    ensures start + size == region.End() || start + size + NODE_SIZE <= region.End()
  {
    AlignUpIsLeastMultiple(region.start, align);
  }

  /** First fit in list order: the index of the chosen region and the block's address. */
  function Search(free: seq<Region>, size: nat, align: nat): Outcome<Option<(nat, nat)>>
    requires 0 < align < W64
  {
    if free == [] then Returned(None)
    else match AllocFromRegion(free[0], size, align)
      case Panicked => Panicked
      case Returned(Some(start)) => Returned(Some((0, start)))
      case Returned(None) =>
        match Search(free[1..], size, align)
        case Returned(Some((i, start))) => Returned(Some((i + 1, start)))
        case other => other
  }

  /** The search gets to region `k`, and panics there. */
  ghost predicate PanicsAt(free: seq<Region>, k: nat, size: nat, align: nat)
    requires k < |free| && 0 < align < W64
  {
    && AllocFromRegion(free[k], size, align) == Panicked
    && forall j | 0 <= j < k :: AllocFromRegion(free[j], size, align) == Returned(None)
  }

  /** The search returns the first region that can host the block, finds nothing exactly when
      no region can, and panics exactly in a region it reaches. */
  lemma {:induction false} SearchIsFirstFit(free: seq<Region>, size: nat, align: nat)
    requires 0 < align < W64
    ensures match Search(free, size, align)
            case Returned(None) =>
              forall j | 0 <= j < |free| :: AllocFromRegion(free[j], size, align) == Returned(None)
            case Returned(Some((i, start))) =>
              && i < |free| && AllocFromRegion(free[i], size, align) == Returned(Some(start))
              && forall j | 0 <= j < i :: AllocFromRegion(free[j], size, align) == Returned(None)
            case Panicked => exists k | 0 <= k < |free| :: PanicsAt(free, k, size, align)
    decreases |free|
  {
    if free != [] && AllocFromRegion(free[0], size, align) == Returned(None) {
      SearchIsFirstFit(free[1..], size, align);
      var tail := free[1..];
      match Search(tail, size, align) {
        case Returned(None) =>
          forall j | 0 <= j < |free|
            ensures AllocFromRegion(free[j], size, align) == Returned(None)
          {
            if j > 0 { assert free[j] == tail[j - 1]; }
          }
        case Returned(Some((i, start))) =>
          forall j | 0 <= j < i + 1
            ensures AllocFromRegion(free[j], size, align) == Returned(None)
          {
            if j > 0 { assert free[j] == tail[j - 1]; }
          }
        case Panicked =>
          var k :| 0 <= k < |tail| && PanicsAt(tail, k, size, align);
          assert forall j | 0 < j <= k + 1 :: free[j] == tail[j - 1];
          assert PanicsAt(free, k + 1, size, align);
      }
    } else if free != [] && AllocFromRegion(free[0], size, align) == Panicked {
      assert PanicsAt(free, 0, size, align);
    }
  }

  /** A live block: the adjusted region, and the layout it was requested with. */
  datatype Block = Block(region: Region, layout: Layout)

  function LiveRegions(live: seq<Block>): seq<Region> {
    seq(|live|, i requires 0 <= i < |live| => live[i].region)
  }

  /** `pads` are the bytes in front of over-aligned blocks, which the allocator forgets. */
  datatype Heap = Heap(lo: nat, hi: nat, free: seq<Region>, live: seq<Block>, pads: seq<Region>) {
    function Pieces(): seq<Region> { free + (LiveRegions(live) + pads) }
  }

  function InitialHeap(start: nat, size: nat): Heap {
    Heap(start, start + size, [Region(start, size)], [], [])
  }

  function AllocStep(h: Heap, layout: Layout): (Heap, Outcome<Option<nat>>)
    requires layout.Valid()
  {
    SizeAlignMeaning(layout);
    match SizeAlign(layout)
    case Panicked => (h, Panicked)
    case Returned(Adjusted(size, align)) =>
      SearchIsFirstFit(h.free, size, align);
      match Search(h.free, size, align)
      case Panicked => (h, Panicked)
      case Returned(None) => (h, Returned(None))
      case Returned(Some((i, start))) =>
        AllocFromRegionMeaning(h.free[i], size, align);
        (Carve(h, layout, i, start, size), Returned(Some(start)))
  }

  /** `p` is where the first region that can host the block puts it. */
  ghost predicate FirstFitAt(free: seq<Region>, size: nat, align: nat, p: nat)
    requires 0 < align < W64
  {
    exists i | 0 <= i < |free| ::
      && AllocFromRegion(free[i], size, align) == Returned(Some(p))
      && forall j | 0 <= j < i :: AllocFromRegion(free[j], size, align) == Returned(None)
  }

  /** The block that starts at the returned pointer, with its adjusted size. */
  function Answered(layout: Layout, p: nat): Block
    requires layout.Valid() && SizeAlign(layout).Returned?
  {
    Block(Region(p, SizeAlign(layout).value.size), layout)
  }

  /** What the client gets is a pointer to the new live block, at the place of the first fit; without
      a pointer nothing has changed. */
  lemma AllocAnswer(h: Heap, layout: Layout)
    requires layout.Valid()
    ensures var (h', r) := AllocStep(h, layout);
            if r.Returned? && r.value.Some?
            then && SizeAlign(layout).Returned? && SizeAlign(layout).value.align < W64
                 && FirstFitAt(h.free, SizeAlign(layout).value.size, SizeAlign(layout).value.align, r.value.value)
                 && h'.live == h.live + [Answered(layout, r.value.value)]
            else h' == h
  {
    SizeAlignMeaning(layout);
    if SizeAlign(layout).Returned? {
      var Adjusted(size, align) := SizeAlign(layout).value;
      SearchIsFirstFit(h.free, size, align);
    }
  }

  /** Cut the block [start, start + size) out of free region `i`. */
  function Carve(h: Heap, layout: Layout, i: nat, start: nat, size: nat): Heap
    requires i < |h.free| && h.free[i].start <= start && start + size <= h.free[i].End()
  {
    h.(free := TailOf(h.free[i], start + size) + Remove(h.free, i),
       live := h.live + [Block(Region(start, size), layout)],
       pads := h.pads + PadOf(h.free[i], start))
  }

  /** What is left of a region behind `end`, and what is lost in front of `start`. */
  function TailOf(r: Region, end: nat): seq<Region>
    requires end <= r.End()
  {
    if end < r.End() then [Region(end, r.End() - end)] else []
  }

  function PadOf(r: Region, start: nat): seq<Region>
    requires r.start <= start
  {
    if r.start < start then [Region(r.start, start - r.start)] else []
  }

  /** Freeing puts the adjusted region in front of the list. */
  function FreeStep(h: Heap, i: nat): Heap
    requires i < |h.live|
  {
    h.(free := [h.live[i].region] + h.free, live := Remove(h.live, i))
  }

  /** The allocator's invariant.  Every byte of the heap belongs to exactly one free region,
      live block or pad, and no byte outside belongs to any. */
  ghost predicate Inv(h: Heap) {
    && 0 < h.lo && h.hi < W64
    && (forall a: int :: Owners(h.Pieces(), a) == if h.lo <= a < h.hi then 1 else 0)
    && (forall r | r in h.free :: NodeOk(r))
    && (forall b | b in h.live :: BlockOk(b))
    && Bytes(h.free) + Bytes(LiveRegions(h.live)) + Bytes(h.pads) == h.hi - h.lo
  }

  /** A free region can hold its node. */
  ghost predicate NodeOk(r: Region) { r.start % NODE_ALIGN == 0 && r.size >= NODE_SIZE }

  /** A block is aligned and sized for its layout, and can become a free node again. */
  ghost predicate BlockOk(b: Block) {
    && b.layout.Valid()
    && SizeAlign(b.layout).Returned?
    && b.region.size == SizeAlign(b.layout).value.size
    && b.region.start % b.layout.align == 0 && b.region.start % NODE_ALIGN == 0
    && b.layout.size <= b.region.size && NODE_SIZE <= b.region.size
  }

  lemma PieceOwners(h: Heap, a: int)
    ensures Owners(h.Pieces(), a) == Owners(h.free, a) + Owners(LiveRegions(h.live), a) + Owners(h.pads, a)
  {
    OwnersAppend(h.free, LiveRegions(h.live) + h.pads, a);
    OwnersAppend(LiveRegions(h.live), h.pads, a);
  }

  lemma InitialInv(start: nat, size: nat)
    requires 0 < start && start + size < W64 && start % NODE_ALIGN == 0 && size >= NODE_SIZE
    ensures Inv(InitialHeap(start, size))
    ensures InitialHeap(start, size).lo == start && InitialHeap(start, size).hi == start + size
    ensures InitialHeap(start, size).live == [] && InitialHeap(start, size).pads == []
  {
    var h := InitialHeap(start, size);
    forall a: int
      ensures Owners(h.Pieces(), a) == if h.lo <= a < h.hi then 1 else 0
    {
      PieceOwners(h, a);
      OwnersSingle(h.free[0], a);
    }
    OwnersSingle(h.free[0], 0);
  }

  lemma CarveOwners(h: Heap, layout: Layout, i: nat, start: nat, size: nat, a: int)
    requires i < |h.free| && h.free[i].start <= start && start + size <= h.free[i].End()
    ensures var h' := Carve(h, layout, i, start, size);
            && Owners(h'.Pieces(), a) == Owners(h.Pieces(), a)
            && Bytes(h'.free) + Bytes(LiveRegions(h'.live)) + Bytes(h'.pads)
               == Bytes(h.free) + Bytes(LiveRegions(h.live)) + Bytes(h.pads)
  {
    var h' := Carve(h, layout, i, start, size);
    PieceOwners(h, a);
    PieceOwners(h', a);
    SplitOwners(h.free[i], start, size, a);
    ReplacedRegion(h.free, i, TailOf(h.free[i], start + size), a);
    OneMoreBlock(h.live, Block(Region(start, size), layout), a);
    OwnersAppend(h.pads, PadOf(h.free[i], start), a);
  }

  lemma ReplacedRegion(free: seq<Region>, i: nat, tail: seq<Region>, a: int)
    requires i < |free|
    ensures Owners(tail + Remove(free, i), a) + (if free[i].Has(a) then 1 else 0) == Owners(free, a) + Owners(tail, a)
    ensures Bytes(tail + Remove(free, i)) + free[i].size == Bytes(free) + Bytes(tail)
  {
    OwnersRemove(free, i, a);
    OwnersAppend(tail, Remove(free, i), a);
  }

  lemma OneMoreBlock(live: seq<Block>, b: Block, a: int)
    ensures Owners(LiveRegions(live + [b]), a) == Owners(LiveRegions(live), a) + Owners([b.region], a)
    ensures Bytes(LiveRegions(live + [b])) == Bytes(LiveRegions(live)) + Bytes([b.region])
  {
    assert LiveRegions(live + [b]) == LiveRegions(live) + [b.region];
    OwnersAppend(LiveRegions(live), [b.region], a);
  }

  /** Pad, block and tail make up the region they were cut from. */
  lemma SplitOwners(r: Region, start: nat, size: nat, a: int)
    requires r.start <= start && start + size <= r.End()
    ensures Owners(PadOf(r, start), a) + Owners([Region(start, size)], a) + Owners(TailOf(r, start + size), a)
            == if r.Has(a) then 1 else 0
    ensures Bytes(PadOf(r, start)) + Bytes([Region(start, size)]) + Bytes(TailOf(r, start + size)) == r.size
  {
    OwnersSingle(Region(start, size), a);
    if start + size < r.End() {
      OwnersSingle(TailOf(r, start + size)[0], a);
    }
    if r.start < start {
      OwnersSingle(PadOf(r, start)[0], a);
    }
  }

  lemma AllocKeepsInv(h: Heap, layout: Layout)
    requires Inv(h) && layout.Valid()
    ensures Inv(AllocStep(h, layout).0)
  {
    AllocAnswer(h, layout);
    SizeAlignMeaning(layout);
    if SizeAlign(layout).Returned? {
      var Adjusted(size, align) := SizeAlign(layout).value;
      SearchIsFirstFit(h.free, size, align);
      if Search(h.free, size, align).Returned? && Search(h.free, size, align).value.Some? {
        var (i, start) := Search(h.free, size, align).value.value;
        HostedAt(h.free[i], size, align, start);
        NewBlockOk(layout, start);
        CarveKeepsInv(h, layout, i, start, size);
      }
    }
  }

  lemma HostedAt(region: Region, size: nat, align: nat, start: nat)
    requires IsPow2(align) && align < W64 && AllocFromRegion(region, size, align) == Returned(Some(start))
    ensures region.start <= start && start % align == 0
    ensures start + size == region.End() || start + size + NODE_SIZE <= region.End()
  {
    AllocFromRegionMeaning(region, size, align);
  }

  lemma CarveKeepsInv(h: Heap, layout: Layout, i: nat, start: nat, size: nat)
    requires Inv(h) && i < |h.free| && h.free[i].start <= start
    requires start + size == h.free[i].End() || start + size + NODE_SIZE <= h.free[i].End()
    requires BlockOk(Block(Region(start, size), layout)) && (start + size) % NODE_ALIGN == 0
    ensures Inv(Carve(h, layout, i, start, size))
  {
    var h' := Carve(h, layout, i, start, size);
    CarveShapes(h, layout, i, start, size);
    forall a: int
      ensures Owners(h'.Pieces(), a) == if h'.lo <= a < h'.hi then 1 else 0
    {
      CarveOwners(h, layout, i, start, size, a);
    }
    CarveOwners(h, layout, i, start, size, 0);
  }

  lemma CarveShapes(h: Heap, layout: Layout, i: nat, start: nat, size: nat)
    requires Inv(h) && i < |h.free| && h.free[i].start <= start
    requires start + size == h.free[i].End() || start + size + NODE_SIZE <= h.free[i].End()
    requires BlockOk(Block(Region(start, size), layout)) && (start + size) % NODE_ALIGN == 0
    ensures var h' := Carve(h, layout, i, start, size);
            && (forall r | r in h'.free :: NodeOk(r))
            && forall b | b in h'.live :: BlockOk(b)
  {
    TailShape(h.free[i], start + size);
    forall r | r in Carve(h, layout, i, start, size).free
      ensures r in TailOf(h.free[i], start + size) || r in h.free
    {
    }
  }

  lemma TailShape(r: Region, end: nat)
    requires end % NODE_ALIGN == 0 && (end == r.End() || end + NODE_SIZE <= r.End())
    ensures forall t | t in TailOf(r, end) :: NodeOk(t)
  {
  }

  lemma NewBlockOk(layout: Layout, start: nat)
    requires layout.Valid() && SizeAlign(layout).Returned? && start % SizeAlign(layout).value.align == 0
    ensures var size := SizeAlign(layout).value.size;
            BlockOk(Block(Region(start, size), layout)) && (start + size) % NODE_ALIGN == 0
  {
    SizeAlignMeaning(layout);
    AdjustedAlignment(layout, start);
    NodeAligned(start, SizeAlign(layout).value.size);
  }

  lemma NodeAligned(a: nat, b: nat)
    requires a % NODE_ALIGN == 0 && b % NODE_ALIGN == 0
    ensures (a + b) % NODE_ALIGN == 0
  {
    DivModUnique(a + b, NODE_ALIGN, a / NODE_ALIGN + b / NODE_ALIGN, 0);
  }

  lemma FreeKeepsInv(h: Heap, i: nat)
    requires Inv(h) && i < |h.live|
    ensures Inv(FreeStep(h, i))
  {
    var h' := FreeStep(h, i);
    forall a: int
      ensures Owners(h'.Pieces(), a) == if h'.lo <= a < h'.hi then 1 else 0
    {
      FreeOwners(h, i, a);
      assert Owners(h.Pieces(), a) == if h.lo <= a < h.hi then 1 else 0;
    }
    FreeOwners(h, i, 0);
    assert BlockOk(h.live[i]);
  }

  lemma FreeOwners(h: Heap, i: nat, a: int)
    requires i < |h.live|
    ensures Owners(FreeStep(h, i).Pieces(), a) == Owners(h.Pieces(), a)
    ensures var h' := FreeStep(h, i);
            Bytes(h'.free) + Bytes(LiveRegions(h'.live)) == Bytes(h.free) + Bytes(LiveRegions(h.live))
  {
    var h' := FreeStep(h, i);
    PieceOwners(h, a);
    PieceOwners(h', a);
    OwnersRemove(LiveRegions(h.live), i, a);
    assert LiveRegions(h'.live) == Remove(LiveRegions(h.live), i);
    OwnersAppend([h.live[i].region], h.free, a);
    OwnersSingle(h.live[i].region, a);
  }

  // ---- Whole runs ----

  /** A client allocates with any layout, and frees or writes to any block it still holds,
      which it names by pointer and layout; `index` says which entry of `live` that is. */
  datatype Op = Alloc(layout: Layout) | Free(index: nat, ptr: nat, layout: Layout) | Write(index: nat, addr: nat, value: nat)

  ghost predicate Legal(h: Heap, op: Op) {
    match op
    case Alloc(layout) => layout.Valid()
    case Free(i, ptr, layout) => i < |h.live| && h.live[i].region.start == ptr && h.live[i].layout == layout
    case Write(i, addr, _) => i < |h.live| && h.live[i].region.Has(addr) && addr % 8 == 0
  }

  function Step(h: Heap, op: Op): Heap
    requires Legal(h, op)
  {
    match op
    case Alloc(layout) => AllocStep(h, layout).0
    case Free(i, _, _) => FreeStep(h, i)
    case Write(_, _, _) => h
  }

  ghost predicate LegalRun(h: Heap, ops: seq<Op>)
    decreases |ops|
  {
    ops != [] ==> Legal(h, ops[0]) && LegalRun(Step(h, ops[0]), ops[1..])
  }

  ghost function Run(h: Heap, ops: seq<Op>): Heap
    requires LegalRun(h, ops)
    decreases |ops|
  {
    if ops == [] then h else Run(Step(h, ops[0]), ops[1..])
  }

  /** Over every run the heap stays exactly partitioned, with well-formed nodes and blocks, and no
      byte of it is ever missing. */
  lemma {:induction false} RunKeepsInv(h: Heap, ops: seq<Op>)
    requires Inv(h) && LegalRun(h, ops)
    ensures var h' := Run(h, ops);
            Inv(h') && h'.lo == h.lo && h'.hi == h.hi && Bytes(h'.Pieces()) == h.hi - h.lo
    decreases |ops|
  {
    if ops == [] {
      InvMeansSafe(h);
    } else {
      StepKeepsInv(h, ops[0]);
      RunKeepsInv(Step(h, ops[0]), ops[1..]);
    }
  }

  lemma StepKeepsInv(h: Heap, op: Op)
    requires Inv(h) && Legal(h, op)
    ensures Inv(Step(h, op)) && Step(h, op).lo == h.lo && Step(h, op).hi == h.hi
  {
    match op {
      case Alloc(layout) => AllocKeepsInv(h, layout);
      case Free(i, _, _) => FreeKeepsInv(h, i);
      case Write(_, _, _) =>
    }
  }

  /** What the invariant means for a client: all free regions, live blocks and pads are
      pairwise disjoint and inside the heap, their sizes add up to the heap, and every block
      has the alignment and the size that were asked for. */
  lemma InvMeansSafe(h: Heap)
    requires Inv(h)
    ensures forall i, j | 0 <= i < |h.Pieces()| && 0 <= j < |h.Pieces()| && i != j ::
              Disjoint(h.Pieces()[i], h.Pieces()[j])
    ensures forall r | r in h.Pieces() && r.size > 0 :: h.lo <= r.start && r.End() <= h.hi
    ensures Bytes(h.Pieces()) == h.hi - h.lo
    ensures forall b | b in h.live :: b.region.start % b.layout.align == 0 && b.layout.size <= b.region.size
  {
    assert forall b | b in h.live :: BlockOk(b);
    var s := h.Pieces();
    forall i, j | 0 <= i < |s| && 0 <= j < |s| && i != j
      ensures Disjoint(s[i], s[j])
    {
      AtMostOneOwnerMeansDisjoint(s, i, j);
    }
    forall r | r in s && r.size > 0
      ensures h.lo <= r.start && r.End() <= h.hi
    {
      var i :| 0 <= i < |s| && s[i] == r;
      OwnersAt(s, i, r.start);
      OwnersAt(s, i, r.End() - 1);
    }
    OwnersAppend(h.free, LiveRegions(h.live) + h.pads, 0);
    OwnersAppend(LiveRegions(h.live), h.pads, 0);
  }

  /** Over every run on a heap of `size` bytes at `start`: live blocks are pairwise disjoint, inside
      the heap, aligned and large enough; and with the free regions and what was lost to padding
      they make up exactly `size` bytes. */
  lemma RunIsSafe(start: nat, size: nat, ops: seq<Op>)
    requires 0 < start && start + size < W64 && start % NODE_ALIGN == 0 && size >= NODE_SIZE
    requires LegalRun(InitialHeap(start, size), ops)
    ensures var h := Run(InitialHeap(start, size), ops);
            && (forall b | b in h.live :: BlockSafe(b, start, start + size))
            && (forall i, j | 0 <= i < j < |h.live| :: Disjoint(h.live[i].region, h.live[j].region))
            && Bytes(h.free) + Bytes(LiveRegions(h.live)) + Bytes(h.pads) == size
  {
    InitialInv(start, size);
    RunKeepsInv(InitialHeap(start, size), ops);
    SafeHeap(Run(InitialHeap(start, size), ops));
  }

  lemma SafeHeap(h: Heap)
    requires Inv(h)
    ensures forall b | b in h.live :: BlockSafe(b, h.lo, h.hi)
    ensures forall i, j | 0 <= i < j < |h.live| :: Disjoint(h.live[i].region, h.live[j].region)
  {
    forall i | 0 <= i < |h.live|
      ensures BlockSafe(h.live[i], h.lo, h.hi)
    {
      SafeBlock(h, i);
    }
    forall i, j | 0 <= i < j < |h.live|
      ensures Disjoint(h.live[i].region, h.live[j].region)
    {
      assert h.Pieces()[|h.free| + i] == h.live[i].region && h.Pieces()[|h.free| + j] == h.live[j].region;
      AtMostOneOwnerMeansDisjoint(h.Pieces(), |h.free| + i, |h.free| + j);
    }
  }

  lemma SafeBlock(h: Heap, i: nat)
    requires Inv(h) && i < |h.live|
    ensures BlockSafe(h.live[i], h.lo, h.hi)
  {
    var b := h.live[i];
    assert BlockOk(b);
    assert h.Pieces()[|h.free| + i] == b.region;
    OwnersAt(h.Pieces(), |h.free| + i, b.region.start);
    OwnersAt(h.Pieces(), |h.free| + i, b.region.End() - 1);
  }

  ghost predicate BlockSafe(b: Block, lo: nat, hi: nat) {
    && b.layout.Valid() && lo <= b.region.start && b.region.End() <= hi
    && b.region.start % b.layout.align == 0 && b.layout.size <= b.region.size
  }

  lemma FreeInside(h: Heap, k: nat)
    requires Inv(h) && k < |h.free|
    ensures h.lo <= h.free[k].start && h.free[k].End() <= h.hi < W64 && h.free[k].size >= NODE_SIZE
  {
    var r := h.free[k];
    assert r in h.free && NodeOk(r) && h.Pieces()[k] == r;
    OwnersAt(h.Pieces(), k, r.start);
    OwnersAt(h.Pieces(), k, r.End() - 1);
  }

  /** What the invariant says about a free region: nothing can go wrong in it but the rounding of
      its start. */
  lemma FreeRegionPanics(h: Heap, k: nat, size: nat, align: nat)
    requires Inv(h) && k < |h.free| && IsPow2(align) && align < W64
    ensures h.free[k].End() < W64
    ensures AllocFromRegion(h.free[k], size, align).Panicked? <==> h.free[k].start + align >= W64
  {
    FreeInside(h, k);
    AllocFromRegionMeaning(h.free[k], size, align);
    AlignUpIsLeastMultiple(h.free[k].start, align);
  }

  /** Allocation panics exactly when the layout cannot be raised to node alignment, or when the
      search gets to a region so close to the top of the address space that rounding up its
      start overflows. */
  lemma AllocPanicsIff(h: Heap, layout: Layout)
    requires Inv(h) && layout.Valid()
    ensures AllocStep(h, layout).1.Panicked? <==>
              match SizeAlign(layout)
              case Panicked => layout.size > MAX_LAYOUT - Max(layout.align, NODE_ALIGN)
              case Returned(Adjusted(size, align)) =>
                exists k | 0 <= k < |h.free| ::
                  h.free[k].start + align >= W64
                  && forall j | 0 <= j < k :: AllocFromRegion(h.free[j], size, align) == Returned(None)
  {
    SizeAlignMeaning(layout);
    if SizeAlign(layout).Returned? {
      var Adjusted(size, align) := SizeAlign(layout).value;
      SearchIsFirstFit(h.free, size, align);
      forall k | 0 <= k < |h.free|
        ensures AllocFromRegion(h.free[k], size, align).Panicked? <==> h.free[k].start + align >= W64
      {
        FreeRegionPanics(h, k, size, align);
      }
      if Search(h.free, size, align).Panicked? {
        var k :| 0 <= k < |h.free| && PanicsAt(h.free, k, size, align);
        assert h.free[k].start + align >= W64;
      }
    }
  }

  /** With room for the alignment above the heap, only the first case is left. */
  lemma NoPanicBelowTheTop(h: Heap, layout: Layout)
    requires Inv(h) && layout.Valid() && h.hi + Max(layout.align, NODE_ALIGN) <= W64
    ensures AllocStep(h, layout).1.Panicked? <==> layout.size > MAX_LAYOUT - Max(layout.align, NODE_ALIGN)
  {
    AllocPanicsIff(h, layout);
    SizeAlignMeaning(layout);
    forall k | 0 <= k < |h.free|
      ensures h.free[k].start < h.hi
    {
      FreeInside(h, k);
    }
  }

  /** A null pointer means that no free region can host the block at its least aligned address,
      and the converse. */
  lemma AllocFailsIffNothingFits(h: Heap, layout: Layout)
    requires Inv(h) && layout.Valid() && SizeAlign(layout).Returned?
    ensures AllocStep(h, layout).1 == Returned(None) <==>
            var Adjusted(size, align) := SizeAlign(layout).value;
            forall r | r in h.free :: Refuses(r, size, align)
  {
    SizeAlignMeaning(layout);
    var Adjusted(size, align) := SizeAlign(layout).value;
    SearchIsFirstFit(h.free, size, align);
    forall k | 0 <= k < |h.free|
      ensures AllocFromRegion(h.free[k], size, align) == Returned(None) <==> Refuses(h.free[k], size, align)
    {
      FreeRegionPanics(h, k, size, align);
      if h.free[k].start + align < W64 {
        HostMeaning(h.free[k], size, align);
      }
    }
    SearchFailsIff(h.free, size, align);
  }

  ghost predicate Refuses(r: Region, size: nat, align: nat)
    requires align > 0
  {
    r.start + align < W64 && CannotHost(r, size, align)
  }

  lemma SearchFailsIff(free: seq<Region>, size: nat, align: nat)
    requires 0 < align < W64
    requires forall k | 0 <= k < |free| ::
               AllocFromRegion(free[k], size, align) == Returned(None) <==> Refuses(free[k], size, align)
    ensures Search(free, size, align) == Returned(None) <==> forall r | r in free :: Refuses(r, size, align)
  {
    SearchIsFirstFit(free, size, align);
    if Search(free, size, align).Panicked? {
      var k :| 0 <= k < |free| && PanicsAt(free, k, size, align);
      assert free[k] in free && !Refuses(free[k], size, align);
    }
  }

  /** At the least aligned address of the region, the block would not fill it and not leave room
      for a node. */
  ghost predicate CannotHost(r: Region, size: nat, align: nat)
    requires align > 0
  {
    forall start: nat | IsLeastMultiple(start, r.start, align) ::
      start + size != r.End() && start + size + NODE_SIZE > r.End()
  }

  lemma HostMeaning(r: Region, size: nat, align: nat)
    requires IsPow2(align) && align < W64 && r.start + align < W64 && r.End() < W64
    ensures AllocFromRegion(r, size, align) == Returned(None) <==> CannotHost(r, size, align)
  {
    AllocFromRegionMeaning(r, size, align);
    var least := AlignUp(r.start, align).value;
    forall start: nat | IsLeastMultiple(start, r.start, align)
      ensures start == least
    {
    }
  }

  ghost predicate SmallAlignments(ops: seq<Op>) {
    forall op | op in ops && op.Alloc? :: op.layout.align <= NODE_ALIGN
  }

  /** No byte is ever lost in front of a block if nobody asks for more than node alignment:
      then free bytes and adjusted live bytes alone always make up the heap. */
  lemma {:induction false} NoPaddingForSmallAlignments(h: Heap, ops: seq<Op>)
    requires Inv(h) && LegalRun(h, ops) && h.pads == [] && SmallAlignments(ops)
    ensures Run(h, ops).pads == []
    ensures var h' := Run(h, ops); Bytes(h'.free) + Bytes(LiveRegions(h'.live)) == h.hi - h.lo
    decreases |ops|
  {
    if ops == [] {
    } else {
      StepKeepsInv(h, ops[0]);
      if ops[0].Alloc? {
        NoPadding(h, ops[0].layout);
      }
      NoPaddingForSmallAlignments(Step(h, ops[0]), ops[1..]);
    }
  }

  lemma NoPadding(h: Heap, layout: Layout)
    requires Inv(h) && layout.Valid() && layout.align <= NODE_ALIGN
    ensures AllocStep(h, layout).0.pads == h.pads
  {
    SizeAlignMeaning(layout);
    if AllocStep(h, layout).1.Returned? && AllocStep(h, layout).1.value.Some? {
      var Adjusted(size, align) := SizeAlign(layout).value;
      SearchIsFirstFit(h.free, size, align);
      var (i, start) := Search(h.free, size, align).value.value;
      assert h.free[i] in h.free && align == NODE_ALIGN;
      assert start <= h.free[i].start by {
        AlignUpIsLeastMultiple(h.free[i].start, align);
      }
    }
  }
}
