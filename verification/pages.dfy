// kernel/src/allocator/mod.rs: mapping pages for the heap, the kernel and user processes.
// The page table is a partial map from page addresses to frames, with some pages out of reach
// below huge pages.  How many page-table frames a mapping needs is decided by the hardware tables,
// which are not part of this model: every choice is allowed.
module Pages {
  import opened Wrappers
  import opened Bits
  import opened Frames

  const HEAP_START := 0x4444_4444_0000
  const HEAP_SIZE := 15 * 1024 * 1024
  const KERNEL_BASE := 0xffff_9000_0000_0000
  const USER_BASE := 0xffff_ffff_9000_0000

  datatype Mapping = Mapping(frame: nat, user: bool)

  datatype MapError = FrameAllocationFailed | ParentEntryHugePage | PageAlreadyMapped
  datatype UnmapError = UnmapParentEntryHugePage | PageNotMapped
  datatype Result<+E> = Ok | Err(error: E)

  /** What a frame that has been handed out was wanted for. */
  datatype Owner = PageOwner(page: nat) | TableOwner

  /** `num_bytes.div_ceil(4096)` */
  function PagesFor(bytes: nat): nat { (bytes + PAGE - 1) / PAGE }

  /** As few pages as hold the bytes. */
  lemma PagesForIsLeast(bytes: nat)
    ensures bytes <= PagesFor(bytes) * PAGE < bytes + PAGE
  {
  }

  /** The n pages from `base` on. */
  predicate InRange(page: nat, base: nat, n: nat) {
    base <= page < base + n * PAGE && (page - base) % PAGE == 0
  }

  /** `after` is `before` with the n pages from `base` on mapped in addition. */
  ghost predicate Extends(before: map<nat, Mapping>, after: map<nat, Mapping>, base: nat, n: nat, user: bool) {
    && (forall p: nat :: p in after <==> p in before || InRange(p, base, n))
    && (forall p: nat | p in before :: !InRange(p, base, n) && after[p] == before[p])
    && (forall p: nat | InRange(p, base, n) :: after[p].user == user)
  }

  /** The n pages from `base` on have got frames from number `first` on; the others keep theirs. */
  ghost predicate SlotsExtend(before: map<nat, nat>, after: map<nat, nat>, base: nat, n: nat, first: nat) {
    && (forall p: nat :: p in after <==> p in before || InRange(p, base, n))
    && (forall p: nat | p in before :: after[p] == before[p])
    && (forall p: nat | InRange(p, base, n) && p !in before :: after[p] >= first)
  }

  class Paging {
    const frames: BootInfoFrameAllocator
    /** The pages that lie inside huge pages: they cannot be mapped one by one. */
    const huge: iset<nat>
    var pageMap: map<nat, Mapping>
    var nextVirt: nat
    var nextVirtUser: nat
    /** For every usable frame handed out so far, in order: what for. */
    ghost var owners: seq<Owner>
    /** The pages mapped by this code: which of the frames handed out each one got. */
    ghost var slot: map<nat, nat>

    ghost predicate Valid()
      reads this, frames
    {
      && WellFormed(frames.memoryMap)
      && |owners| == Min(frames.next, |frames.Frames()|)
      && KERNEL_BASE <= nextVirt < W64 && USER_BASE <= nextVirtUser < W64
      && nextVirt % PAGE == 0 && nextVirtUser % PAGE == 0
      && forall p: nat | p in slot :: SlotOk(p)
    }

    ghost predicate SlotOk(p: nat)
      requires p in slot
      reads this, frames
    {
      && p in pageMap && slot[p] < |owners| <= |frames.Frames()|
      && owners[slot[p]] == PageOwner(p) && pageMap[p].frame == frames.Frames()[slot[p]]
    }

    /** With a fresh frame allocator, and whatever the boot loader has mapped. */
    constructor (frames: BootInfoFrameAllocator, huge: iset<nat>, initial: map<nat, Mapping>)
      requires frames.next == 0 && WellFormed(frames.memoryMap)
      ensures Valid() && this.frames == frames && this.huge == huge && pageMap == initial && slot == map[]
      ensures nextVirt == KERNEL_BASE && nextVirtUser == USER_BASE
    {
      this.frames := frames;
      this.huge := huge;
      pageMap := initial;
      nextVirt, nextVirtUser := KERNEL_BASE, USER_BASE;
      owners, slot := [], map[];
    }

    /** A frame was asked for when none was left. */
    ghost predicate OutOfFrames()
      reads frames
    {
      frames.next > |frames.Frames()|
    }

    /** The page is mapped already, or cannot be. */
    ghost predicate Taken(before: map<nat, Mapping>, page: nat) { page in before || page in huge }

    ghost predicate Blocked(before: map<nat, Mapping>, base: nat, n: nat) {
      exists p: nat | InRange(p, base, n) :: Taken(before, p)
    }

    /** Why n pages cannot be mapped at the cursor. */
    ghost predicate NoRoom(before: map<nat, Mapping>, cursor: nat, n: nat)
      reads frames
    {
      cursor + n * PAGE >= W64 || OutOfFrames() || Blocked(before, cursor, n)
    }

    method TakeFrame(ghost owner: Owner) returns (frame: Option<nat>)
      requires Valid()
      modifies this`owners, frames
      ensures Valid() && old(owners) <= owners
      ensures frame.Some? ==> owners == old(owners) + [owner] && frame.value == frames.Frames()[|old(owners)|]
      ensures frame.None? ==> OutOfFrames()
    {
      frame := frames.AllocateFrame();
      if frame.Some? {
        owners := owners + [owner];
      }
    }

    /** `Mapper::map_to`: takes frames for missing page tables, and never remaps a page. */
    method MapTo(page: nat, frame: nat, user: bool) returns (r: Result<MapError>)
      requires Valid()
      modifies this`owners, this`pageMap, frames
      ensures Valid() && old(owners) <= owners
      ensures match r
              case Ok => page !in old(pageMap) && page !in huge && pageMap == old(pageMap)[page := Mapping(frame, user)]
              case Err(e) => pageMap == old(pageMap)
                             && (if e.FrameAllocationFailed? then OutOfFrames()
                                 else if e.ParentEntryHugePage? then page in huge
                                 else page in old(pageMap) && page !in huge)
    {
      var tables: nat :| tables <= 3;
      for i := 0 to tables
        invariant Valid() && old(owners) <= owners && pageMap == old(pageMap)
      {
        var table := TakeFrame(TableOwner);
        if table.None? {
          return Err(FrameAllocationFailed);
        }
      }
      if page in huge {
        return Err(ParentEntryHugePage);
      }
      if page in pageMap {
        return Err(PageAlreadyMapped);
      }
      pageMap := pageMap[page := Mapping(frame, user)];
      return Ok;
    }

    /** One page, with a frame of its own. */
    method MapFresh(page: nat, user: bool) returns (r: Result<MapError>)
      requires Valid()
      modifies this`owners, this`pageMap, this`slot, frames
      ensures Valid() && old(owners) <= owners
      ensures if r.Ok?
              then && page !in old(pageMap) && page !in huge && page in pageMap
                   && pageMap == old(pageMap)[page := pageMap[page]] && pageMap[page].user == user
                   && page !in old(slot) && page in slot && slot == old(slot)[page := slot[page]]
                   && slot[page] >= |old(owners)|
              else pageMap == old(pageMap) && slot == old(slot) && (OutOfFrames() || Taken(old(pageMap), page))
    {
      ghost var index := |owners|;
      var frame := TakeFrame(PageOwner(page));
      if frame.None? {
        return Err(FrameAllocationFailed);
      }
      r := MapTo(page, frame.value, user);
      if r.Ok? {
        slot := slot[page := index];
      }
    }

    /** The loop over pages that heap, kernel and user allocation share: a frame just taken for
        each page.  Stops at the first failure, which is for want of frames or because the next
        page is taken; the pages before that one stay mapped. */
    method MapRange(base: nat, n: nat, user: bool) returns (r: Result<MapError>, ghost mapped: nat)
      requires Valid() && base % PAGE == 0
      modifies this`owners, this`pageMap, this`slot, frames
      ensures Valid() && MappedSoFar(old(pageMap), old(slot), old(owners), base, mapped, user)
      ensures if r.Ok? then mapped == n
              else mapped < n && (OutOfFrames() || Taken(old(pageMap), base + mapped * PAGE))
    {
      r, mapped := Ok, 0;
      NothingMapped(base, user);
      for i := 0 to n
        invariant Valid() && mapped == i && r.Ok?
        invariant MappedSoFar(old(pageMap), old(slot), old(owners), base, i, user)
      {
        r := MapNext(old(pageMap), old(slot), old(owners), base, i, user);
        if r.Err? {
          break;
        }
        mapped := i + 1;
      }
    }

    lemma NothingMapped(base: nat, user: bool)
      ensures MappedSoFar(pageMap, slot, owners, base, 0, user)
    {
    }

    /** The first n pages from `base` on have been mapped since the page table was `pageMap0`. */
    ghost predicate MappedSoFar(pageMap0: map<nat, Mapping>, slot0: map<nat, nat>, owners0: seq<Owner>,
                                base: nat, n: nat, user: bool)
      reads this
    {
      && owners0 <= owners
      && Extends(pageMap0, pageMap, base, n, user) && SlotsExtend(slot0, slot, base, n, |owners0|)
      && !Blocked(pageMap0, base, n)
    }

    method MapNext(ghost pageMap0: map<nat, Mapping>, ghost slot0: map<nat, nat>, ghost owners0: seq<Owner>,
                   base: nat, i: nat, user: bool) returns (r: Result<MapError>)
      requires Valid() && MappedSoFar(pageMap0, slot0, owners0, base, i, user)
      modifies this`owners, this`pageMap, this`slot, frames
      ensures Valid()
      ensures if r.Ok? then MappedSoFar(pageMap0, slot0, owners0, base, i + 1, user)
              else MappedSoFar(pageMap0, slot0, owners0, base, i, user)
                   && (OutOfFrames() || Taken(pageMap0, base + i * PAGE))
    {
      var page := base + i * PAGE;
      NextIsNew(pageMap0, pageMap, page, base, i, user);
      r := MapFresh(page, user);
      if r.Ok? {
        OneMoreFree(pageMap0, page, base, i);
        ExtendOne(pageMap0, old(pageMap), pageMap, page, base, i, user);
        ExtendSlots(slot0, old(slot), slot, page, base, i, |owners0|);
      }
    }

    lemma OneMoreFree(before: map<nat, Mapping>, page: nat, base: nat, i: nat)
      requires !Blocked(before, base, i) && page == base + i * PAGE && !Taken(before, page)
      ensures !Blocked(before, base, i + 1)
    {
      OneMore(page, base, i);
    }

    /** `init_heap` */
    method InitHeap() returns (r: Result<MapError>, ghost mapped: nat)
      requires Valid()
      modifies this`owners, this`pageMap, this`slot, frames
      ensures Valid()
      ensures MappedSoFar(old(pageMap), old(slot), old(owners), HEAP_START, mapped, false)
      ensures if r.Ok? then mapped == PagesFor(HEAP_SIZE)
              else mapped < PagesFor(HEAP_SIZE) && (OutOfFrames() || Taken(old(pageMap), HEAP_START + mapped * PAGE))
    {
      r, mapped := MapRange(HEAP_START, PagesFor(HEAP_SIZE), false);
    }

    /** `alloc_pages` */
    method AllocPages(numPages: nat) returns (r: Outcome<nat>)
      requires Valid()
      modifies this, frames
      ensures r.Returned? ==> Valid() && r.value == old(nextVirt) && nextVirt == r.value + numPages * PAGE
                              && nextVirtUser == old(nextVirtUser)
                              && Extends(old(pageMap), pageMap, r.value, numPages, false)
                              && SlotsExtend(old(slot), slot, r.value, numPages, |old(owners)|)
                              && !Blocked(old(pageMap), r.value, numPages)
      ensures r.Panicked? ==> NoRoom(old(pageMap), old(nextVirt), numPages)
    {
      if nextVirt + numPages * PAGE >= W64 {
        return Panicked;
      }
      var base := nextVirt;
      nextVirt := nextVirt + numPages * PAGE;
      var mapping, mapped := MapRange(base, numPages, false);
      return if mapping.Ok? then Returned(base) else Panicked;
    }

    /** `alloc_pages_user` */
    method AllocPagesUser(numPages: nat) returns (r: Outcome<nat>)
      requires Valid()
      modifies this, frames
      ensures r.Returned? ==> Valid() && r.value == old(nextVirtUser) && nextVirtUser == r.value + numPages * PAGE
                              && nextVirt == old(nextVirt)
                              && Extends(old(pageMap), pageMap, r.value, numPages, true)
                              && SlotsExtend(old(slot), slot, r.value, numPages, |old(owners)|)
                              && !Blocked(old(pageMap), r.value, numPages)
      ensures r.Panicked? ==> NoRoom(old(pageMap), old(nextVirtUser), numPages)
    {
      if nextVirtUser + numPages * PAGE >= W64 {
        return Panicked;
      }
      var base := nextVirtUser;
      nextVirtUser := nextVirtUser + numPages * PAGE;
      var mapping, mapped := MapRange(base, numPages, true);
      return if mapping.Ok? then Returned(base) else Panicked;
    }

    /** `alloc` and `alloc_user`: at least two pages, and enough for the bytes. */
    method Alloc(numBytes: nat, user: bool) returns (r: Outcome<Option<nat>>)
      requires Valid()
      modifies this, frames
      ensures r == Returned(None) <==> numBytes == 0
      ensures r == Returned(None) ==> Valid() && pageMap == old(pageMap)
      ensures r.Returned? && r.value.Some? ==>
                && r.value.value == (if user then old(nextVirtUser) else old(nextVirt))
                && Valid() && r.value.value % PAGE == 0 && r.value.value >= KERNEL_BASE
                && Extends(old(pageMap), pageMap, r.value.value, Max(PagesFor(numBytes), 2), user)
                && numBytes <= Max(PagesFor(numBytes), 2) * PAGE
                && r.value.value + Max(PagesFor(numBytes), 2) * PAGE < W64
                && SlotsExtend(old(slot), slot, r.value.value, Max(PagesFor(numBytes), 2), |old(owners)|)
                && !Blocked(old(pageMap), r.value.value, Max(PagesFor(numBytes), 2))
                && (user ==> nextVirt == old(nextVirt) && nextVirtUser == r.value.value + Max(PagesFor(numBytes), 2) * PAGE)
                && (!user ==> nextVirtUser == old(nextVirtUser) && nextVirt == r.value.value + Max(PagesFor(numBytes), 2) * PAGE)
      ensures r.Panicked? ==>
                NoRoom(old(pageMap), if user then old(nextVirtUser) else old(nextVirt), Max(PagesFor(numBytes), 2))
    {
      if numBytes == 0 {
        return Returned(None);
      }
      var base;
      if user {
        base := AllocPagesUser(Max(PagesFor(numBytes), 2));
      } else {
        base := AllocPages(Max(PagesFor(numBytes), 2));
      }
      match base {
        case Panicked => return Panicked;
        case Returned(a) => return Returned(Some(a));
      }
    }

    /** `free`: unmaps page by page, and stops at a page that is not mapped or lies in a huge page;
        the pages before that one are gone. */
    method Free(virtAddr: nat, numBytes: nat) returns (r: Result<UnmapError>, ghost freed: nat)
      requires Valid()
      modifies this`pageMap, this`slot
      ensures Valid()
      ensures virtAddr == 0 ==> r.Ok? && pageMap == old(pageMap)
      ensures virtAddr > 0 ==>
                (r.Ok? <==> forall p: nat | InRange(p, FrameOf(virtAddr), PagesFor(numBytes)) :: CanFree(old(pageMap), p))
      ensures virtAddr > 0 ==> pageMap == Unmapped(old(pageMap), FrameOf(virtAddr), freed)
      ensures virtAddr > 0 && r.Ok? ==> freed == PagesFor(numBytes)
      ensures r.Err? ==>
                && virtAddr > 0 && freed < PagesFor(numBytes)
                && var page := FrameOf(virtAddr) + freed * PAGE;
                if r.error.UnmapParentEntryHugePage? then page in huge else page !in huge && page !in old(pageMap)
    {
      freed := 0;
      if virtAddr == 0 || numBytes == 0 {
        NothingUnmapped(pageMap, FrameOf(virtAddr));
        return Ok, 0;
      }
      var numPages := PagesFor(numBytes);
      ghost var base := FrameOf(virtAddr);
      NothingUnmapped(pageMap, base);
      for i := 0 to numPages
        invariant Valid() && freed == i
        invariant forall p: nat | InRange(p, base, i) :: CanFree(old(pageMap), p)
        invariant pageMap == Unmapped(old(pageMap), base, i)
      {
        var page := FrameOf(virtAddr + i * PAGE);
        PageOfOffset(virtAddr, i);
        OneMore(page, base, i);
        InRangeOfMore(page, base, i, numPages);
        if page in huge {
          r := Err(UnmapParentEntryHugePage);
          return;
        }
        if page !in pageMap {
          r := Err(PageNotMapped);
          return;
        }
        pageMap := pageMap - {page};
        slot := slot - {page};
        freed := i + 1;
      }
      r := Ok;
    }

    /** The page is mapped, and not as part of a huge page. */
    ghost predicate CanFree(before: map<nat, Mapping>, page: nat) { page in before && page !in huge }
  }

  /** Without the n pages from `base` on. */
  ghost function Unmapped(before: map<nat, Mapping>, base: nat, n: nat): map<nat, Mapping> {
    map p | p in before && !InRange(p, base, n) :: before[p]
  }

  lemma NothingUnmapped(before: map<nat, Mapping>, base: nat)
    ensures Unmapped(before, base, 0) == before
  {
  }

  lemma PageOfOffset(a: nat, i: nat)
    ensures FrameOf(a + i * PAGE) == FrameOf(a) + i * PAGE
  {
  }

  lemma OneMore(page: nat, base: nat, i: nat)
    requires page == base + i * PAGE
    ensures !InRange(page, base, i)
    ensures forall p: nat :: InRange(p, base, i + 1) <==> InRange(p, base, i) || p == page
  {
  }

  lemma NextIsNew(m0: map<nat, Mapping>, m: map<nat, Mapping>, page: nat, base: nat, i: nat, user: bool)
    requires Extends(m0, m, base, i, user) && page == base + i * PAGE
    ensures page in m <==> page in m0
  {
    OneMore(page, base, i);
  }

  lemma ExtendOne(m0: map<nat, Mapping>, m: map<nat, Mapping>, m': map<nat, Mapping>, page: nat, base: nat, i: nat, user: bool)
    requires Extends(m0, m, base, i, user) && page == base + i * PAGE && page !in m
    requires page in m' && m' == m[page := m'[page]] && m'[page].user == user
    ensures Extends(m0, m', base, i + 1, user)
  {
    OneMore(page, base, i);
  }

  lemma ExtendSlots(s0: map<nat, nat>, s: map<nat, nat>, s': map<nat, nat>, page: nat, base: nat, i: nat, first: nat)
    requires SlotsExtend(s0, s, base, i, first) && page == base + i * PAGE
    requires page !in s && page in s' && s' == s[page := s'[page]] && s'[page] >= first
    ensures SlotsExtend(s0, s', base, i + 1, first)
  {
    OneMore(page, base, i);
  }

  lemma InRangeOfMore(page: nat, base: nat, i: nat, n: nat)
    requires page == base + i * PAGE && i < n
    ensures InRange(page, base, n)
  {
  }

  lemma FramesDiffer(regions: seq<MemoryRegion>)
    requires WellFormed(regions)
    ensures NoRepeats(UsableFrames(regions))
  {
    UsableFramesMeaning(regions);
  }

  lemma DistinctFrames(frames: seq<nat>, i: nat, j: nat)
    requires NoRepeats(frames) && i < |frames| && j < |frames| && i != j
    ensures frames[i] != frames[j]
  {
  }

  /** No two pages mapped by this code share a frame, and none has the frame of a page table. */
  lemma FramesAreNotShared(m: Paging, p: nat, i: nat)
    requires m.Valid() && p in m.slot && i < |m.owners| && m.owners[i] != PageOwner(p)
    ensures p in m.pageMap && i < |m.frames.Frames()| && m.pageMap[p].frame != m.frames.Frames()[i]
    ensures forall q | m.owners[i] == PageOwner(q) && q in m.slot && m.slot[q] == i ::
              q in m.pageMap && m.pageMap[q].frame != m.pageMap[p].frame
  {
    FramesDiffer(m.frames.memoryMap);
    assert m.SlotOk(p);
    DistinctFrames(m.frames.Frames(), m.slot[p], i);
    forall q | m.owners[i] == PageOwner(q) && q in m.slot && m.slot[q] == i
      ensures q in m.pageMap && m.pageMap[q].frame == m.frames.Frames()[i]
    {
      assert m.SlotOk(q);
    }
  }

  lemma PagesHaveTheirOwnFrames(m: Paging, p: nat, q: nat)
    requires m.Valid() && p in m.slot && q in m.slot && p != q
    ensures p in m.pageMap && q in m.pageMap && m.pageMap[p].frame != m.pageMap[q].frame
  {
    assert m.SlotOk(q) && m.SlotOk(p);
    FramesAreNotShared(m, p, m.slot[q]);
  }

  datatype Request = Request(bytes: nat, user: bool)
  datatype Block = Block(base: nat, pages: nat, request: Request) {
    predicate Has(a: nat) { base <= a < base + pages * PAGE }
  }

  function PagesOf(q: Request): nat { Max(PagesFor(q.bytes), 2) }

  /** Where a cursor is after the requests. */
  ghost function CursorAfter(start: nat, requests: seq<Request>, user: bool): nat {
    if requests == [] then start
    else
      var last := requests[|requests| - 1];
      CursorAfter(start, requests[..|requests| - 1], user) + (if last.user == user then PagesOf(last) * PAGE else 0)
  }

  ghost predicate InBlocks(blocks: seq<Block>, p: nat) {
    exists b | b in blocks :: InRange(p, b.base, b.pages)
  }

  /** Any sequence of kernel and user allocations: the blocks are pairwise disjoint, large enough,
      and mapped page by page with the right access, each page to a frame of its own; nothing else
      is mapped.  It stops early only if the next block has no room at its cursor, in the page table
      as it is after the blocks before. */
  method AllocateAll(m: Paging, requests: seq<Request>) returns (r: Outcome<seq<Block>>, ghost blocks: seq<Block>)
    requires m.Valid() && forall q | q in requests :: q.bytes > 0
    modifies m, m.frames
    ensures r.Returned? ==>
              && r.value == blocks && m.Valid() && |blocks| == |requests|
              && BlocksOk(m.pageMap, m.slot, blocks, requests) && Adds(old(m.pageMap), m.pageMap, blocks)
    ensures r.Panicked? ==>
              && |blocks| < |requests|
              && var q := requests[|blocks|];
              var start := if q.user then old(m.nextVirtUser) else old(m.nextVirt);
              exists before: map<nat, Mapping> | Adds(old(m.pageMap), before, blocks) ::
                m.NoRoom(before, CursorAfter(start, requests[..|blocks|], q.user), PagesOf(q))
  {
    var done: seq<Block> := [];
    for n := 0 to |requests|
      invariant m.Valid() && |done| == n
      invariant BlocksOk(m.pageMap, m.slot, done, requests) && Adds(old(m.pageMap), m.pageMap, done)
      invariant m.nextVirt == CursorAfter(old(m.nextVirt), requests[..n], false)
      invariant m.nextVirtUser == CursorAfter(old(m.nextVirtUser), requests[..n], true)
    {
      var q := requests[n];
      assert q in requests;
      ghost var mapBefore, slotBefore := m.pageMap, m.slot;
      var base := m.Alloc(q.bytes, q.user);
      if base.Panicked? {
        assert m.NoRoom(mapBefore, CursorAfter(if q.user then old(m.nextVirtUser) else old(m.nextVirt), requests[..n], q.user), PagesOf(q));
        return Panicked, done;
      }
      assert requests[..n + 1][..n] == requests[..n];
      var b := Block(base.value.value, PagesOf(q), q);
      NewBlock(mapBefore, m.pageMap, slotBefore, m.slot, done, b, requests);
      NewPages(old(m.pageMap), mapBefore, m.pageMap, done, b);
      done := done + [b];
    }
    return Returned(done), done;
  }

  ghost predicate BlockOk(pageMap: map<nat, Mapping>, slot: map<nat, nat>, b: Block, q: Request) {
    && b.request == q && q.bytes <= b.pages * PAGE && b.base % PAGE == 0
    && forall p: nat | InRange(p, b.base, b.pages) :: p in slot && p in pageMap && pageMap[p].user == q.user
  }

  ghost predicate BlocksApart(b: Block, c: Block) {
    forall a: nat :: !(b.Has(a) && c.Has(a))
  }

  ghost predicate BlocksOk(pageMap: map<nat, Mapping>, slot: map<nat, nat>, blocks: seq<Block>, requests: seq<Request>) {
    && |blocks| <= |requests|
    && (forall i | 0 <= i < |blocks| :: BlockOk(pageMap, slot, blocks[i], requests[i]))
    && forall i, j | 0 <= i < j < |blocks| :: BlocksApart(blocks[i], blocks[j])
  }

  /** `after` is `before` with the pages of the blocks mapped in addition. */
  ghost predicate Adds(before: map<nat, Mapping>, after: map<nat, Mapping>, blocks: seq<Block>) {
    && (forall p: nat :: p in after <==> p in before || InBlocks(blocks, p))
    && forall p: nat | p in before :: after[p] == before[p]
  }

  lemma NewBlock(m0: map<nat, Mapping>, m1: map<nat, Mapping>, s0: map<nat, nat>, s1: map<nat, nat>,
                 blocks: seq<Block>, b: Block, requests: seq<Request>)
    requires BlocksOk(m0, s0, blocks, requests) && |blocks| < |requests| && b.request == requests[|blocks|]
    requires Extends(m0, m1, b.base, b.pages, b.request.user)
    requires forall p: nat :: p in s1 <==> p in s0 || InRange(p, b.base, b.pages)
    requires b.base % PAGE == 0 && b.request.bytes <= b.pages * PAGE
    ensures BlocksOk(m1, s1, blocks + [b], requests)
  {
    forall i | 0 <= i < |blocks|
      ensures BlockOk(m1, s1, blocks[i], requests[i]) && BlocksApart(blocks[i], b)
    {
      OldBlock(m0, m1, s0, blocks[i], requests[i], b);
    }
  }

  lemma OldBlock(m0: map<nat, Mapping>, m1: map<nat, Mapping>, s0: map<nat, nat>, c: Block, q: Request, b: Block)
    requires BlockOk(m0, s0, c, q) && Extends(m0, m1, b.base, b.pages, b.request.user) && b.base % PAGE == 0
    ensures BlockOk(m1, s0, c, q) && BlocksApart(c, b)
  {
    forall a: nat | c.Has(a)
      ensures !b.Has(a)
    {
      PageOfBlock(c, a);
      PageOfBlock(b, a);
    }
  }

  lemma NewPages(before: map<nat, Mapping>, m0: map<nat, Mapping>, m1: map<nat, Mapping>, blocks: seq<Block>, b: Block)
    requires Adds(before, m0, blocks) && Extends(m0, m1, b.base, b.pages, b.request.user)
    ensures Adds(before, m1, blocks + [b])
  {
    forall p: nat
      ensures InBlocks(blocks + [b], p) <==> InBlocks(blocks, p) || InRange(p, b.base, b.pages)
    {
      if InRange(p, b.base, b.pages) {
        assert b in blocks + [b];
      } else if InBlocks(blocks, p) {
        var c :| c in blocks && InRange(p, c.base, c.pages);
        assert c in blocks + [b];
      }
    }
  }

  lemma PageOfBlock(b: Block, a: nat)
    requires b.base % PAGE == 0
    ensures b.Has(a) <==> InRange(FrameOf(a), b.base, b.pages)
  {
  }

  lemma FewerPages(base: nat, k: nat, n: nat)
    requires k <= n
    ensures forall p: nat | InRange(p, base, k) :: InRange(p, base, n)
  {
  }

  /** Unmapping the first k of n fresh pages undoes the mapping exactly when k is n. */
  lemma UndoneIff(before: map<nat, Mapping>, mapped: map<nat, Mapping>, base: nat, n: nat, k: nat, user: bool)
    requires Extends(before, mapped, base, n, user) && k <= n
    ensures Unmapped(mapped, base, k) == before <==> k == n
  {
    if k == n {
      assert Unmapped(mapped, base, n) == before;
    } else {
      var page := base + k * PAGE;
      OneMore(page, base, k);
      InRangeOfMore(page, base, k, n);
      assert page in Unmapped(mapped, base, k) && page !in before;
    }
  }

  /** Allocating and freeing the same number of bytes leaves the page table as it was exactly when
      there are more than 4096 of them: one page of a smaller block stays mapped.  The allocation
      fails only for want of room. */
  method AllocThenFree(m: Paging, numBytes: nat, user: bool) returns (done: bool)
    requires m.Valid() && numBytes > 0
    modifies m, m.frames
    ensures done ==> m.Valid() && (m.pageMap == old(m.pageMap) <==> numBytes > PAGE)
    ensures !done ==> m.NoRoom(old(m.pageMap), if user then old(m.nextVirtUser) else old(m.nextVirt), Max(PagesFor(numBytes), 2))
  {
    var base := m.Alloc(numBytes, user);
    if base.Panicked? {
      return false;
    }
    FreeFresh(m, old(m.pageMap), base.value.value, numBytes, user);
    return true;
  }

  /** Freeing what has just been allocated succeeds. */
  method FreeFresh(m: Paging, ghost before: map<nat, Mapping>, base: nat, numBytes: nat, ghost user: bool)
    requires m.Valid() && numBytes > 0 && base > 0 && base % PAGE == 0
    requires Extends(before, m.pageMap, base, Max(PagesFor(numBytes), 2), user)
    requires !m.Blocked(before, base, Max(PagesFor(numBytes), 2))
    modifies m`pageMap, m`slot
    ensures m.Valid() && (m.pageMap == before <==> numBytes > PAGE)
  {
    ghost var n := Max(PagesFor(numBytes), 2);
    FewerPages(base, PagesFor(numBytes), n);
    assert forall p: nat | InRange(p, base, PagesFor(numBytes)) :: m.CanFree(m.pageMap, p);
    var freed, count := m.Free(base, numBytes);
    UndoneIff(before, old(m.pageMap), base, n, PagesFor(numBytes), user);
  }

  /** For one byte: the second page is still mapped afterwards. */
  method OneByteLeavesAPage(m: Paging, user: bool) returns (done: bool)
    requires m.Valid()
    modifies m, m.frames
    ensures done ==> m.pageMap != old(m.pageMap)
    ensures !done ==> m.NoRoom(old(m.pageMap), if user then old(m.nextVirtUser) else old(m.nextVirt), 2)
  {
    done := AllocThenFree(m, 1, user);
  }
}
