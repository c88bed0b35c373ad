// kernel/src/allocator/fixed_size_block.rs, on values: per-class free lists in front of a
// fallback heap.  The fallback is not part of this model: every step that calls it takes its
// answer as a parameter, constrained by what `linked_list_allocator::Heap` promises.
module FixedSizeBlockModel {
  import opened Wrappers
  import opened Bits
  import opened Alignment

  const CLASSES := 10
  const BLOCK_SIZES: seq<nat> := [8, 16, 32, 64, 128, 256, 512, 1024, 2048, 4098]

  function Position(required: nat, i: nat): Option<nat>
    requires i <= CLASSES
    decreases CLASSES - i
  {
    if i == CLASSES then None
    else if BLOCK_SIZES[i] >= required then Some(i)
    else Position(required, i + 1)
  }

  function ListIndex(layout: Layout): Option<nat> {
    Position(Max(layout.size, layout.align), 0)
  }

  /** The class is the smallest one that is large enough for size and alignment. */
  lemma {:induction false} PositionIsSmallest(required: nat, i: nat)
    requires i <= CLASSES && (i > 0 ==> BLOCK_SIZES[i - 1] < required)
    ensures match Position(required, i)
            case None => required > 4098
            case Some(k) => k < CLASSES && required <= BLOCK_SIZES[k] && (k > 0 ==> BLOCK_SIZES[k - 1] < required)
    decreases CLASSES - i
  {
    if i == CLASSES || BLOCK_SIZES[i] >= required {
    } else {
      PositionIsSmallest(required, i + 1);
    }
  }

  lemma ClassSizesArePow2(i: nat)
    requires i < CLASSES
    ensures IsPow2(BLOCK_SIZES[i]) <==> i < CLASSES - 1
  {
    Words();
    assert Pow2(3) == 8 && Pow2(4) == 16 && Pow2(5) == 32 && Pow2(6) == 64 && Pow2(7) == 128;
    assert Pow2(8) == 256 && Pow2(9) == 512 && Pow2(10) == 1024 && Pow2(11) == 2048 && Pow2(13) == 8192;
    if IsPow2(4098) {
      var k: nat :| Pow2(k) == 4098;
      if k <= 12 {
        Pow2Monotone(k, 12);
      } else {
        Pow2Monotone(13, k);
      }
    }
  }

  /** `Layout::from_size_align(block_size, block_size)` */
  function BlockLayout(i: nat): Outcome<Layout>
    requires i < CLASSES
  {
    var layout := Layout(BLOCK_SIZES[i], BLOCK_SIZES[i]);
    if layout.Valid() then Returned(layout) else Panicked
  }

  /** That layout is refused, and unwrapping it panics, exactly for the last class. */
  lemma BlockLayoutMeaning(i: nat)
    requires i < CLASSES
    ensures BlockLayout(i) == if i < CLASSES - 1 then Returned(Layout(BLOCK_SIZES[i], BLOCK_SIZES[i])) else Panicked
  {
    ClassSizesArePow2(i);
  }

  datatype Owner = Live(layout: Layout) | Listed(cls: nat)

  /** A stretch of memory that was taken from the fallback. */
  datatype Chunk = Chunk(size: nat, owner: Owner)

  /** `lists[i]`: the free blocks of class i, last freed first.  `chunks`: everything taken from
      the fallback and not given back, by address.  `spare`: the bytes the fallback may still
      hand out.  `obtained[i]`: how many blocks were taken from the fallback for class i. */
  datatype Pool = Pool(lo: nat, hi: nat, lists: seq<seq<nat>>, chunks: map<nat, Chunk>,
                       spare: set<nat>, obtained: seq<nat>)

  /** After `init`: the fallback holds (at most) the bytes of the heap. */
  function Empty(lo: nat, hi: nat, spare: set<nat>): Pool {
    Pool(lo, hi, seq(CLASSES, i => []), map[], spare, seq(CLASSES, i => 0))
  }

  /** The fallback's answer to an allocation, and the bytes it still holds afterwards. */
  datatype Reply = Reply(answer: Option<nat>, spare: set<nat>)

  /** `allocate_first_fit`: refuses, or hands out spare bytes at an aligned address. */
  ghost predicate ReplyOk(s: Pool, layout: Layout, reply: Reply) {
    && reply.spare <= s.spare
    && (reply.answer.Some? ==>
          var p := reply.answer.value;
          && 0 < p && layout.align > 0 && p % layout.align == 0
          && forall a: nat | p <= a < p + layout.size :: a in s.spare && a !in reply.spare)
  }

  /** `deallocate`: gets the chunk's bytes back, and no others. */
  ghost predicate ReturnOk(s: Pool, p: nat, size: nat, spare: set<nat>) {
    forall a | a in spare :: a in s.spare || p <= a < p + size
  }

  /** What the fallback is asked for when there is no free block of the class. */
  function Request(layout: Layout): Outcome<Layout> {
    match ListIndex(layout)
    case None => Returned(layout)
    case Some(i) => PositionIsSmallest(Max(layout.size, layout.align), 0); BlockLayout(i)
  }

  lemma RequestMeaning(layout: Layout)
    ensures Request(layout).Panicked? <==> 2048 < Max(layout.size, layout.align) <= 4098
    ensures Request(layout).Returned? ==>
              Request(layout).value == match ListIndex(layout)
                                       case None => layout
                                       case Some(i) => Layout(BLOCK_SIZES[i], BLOCK_SIZES[i])
  {
    PositionIsSmallest(Max(layout.size, layout.align), 0);
    if ListIndex(layout).Some? {
      BlockLayoutMeaning(ListIndex(layout).value);
    }
  }

  function AllocStep(s: Pool, layout: Layout, reply: Reply): (Pool, Outcome<Option<nat>>)
    requires |s.lists| == CLASSES == |s.obtained|
  {
    PositionIsSmallest(Max(layout.size, layout.align), 0);
    var cls := ListIndex(layout);
    if cls.Some? && s.lists[cls.value] != [] then
      var i := cls.value;
      var p := s.lists[i][0];
      (s.(lists := s.lists[i := s.lists[i][1..]], chunks := s.chunks[p := Chunk(BLOCK_SIZES[i], Live(layout))]),
       Returned(Some(p)))
    else
      match Request(layout)
      case Panicked => (s, Panicked)
      case Returned(request) =>
        if reply.answer.None? then (s.(spare := reply.spare), Returned(None))
        else
          var p := reply.answer.value;
          (s.(spare := reply.spare, chunks := s.chunks[p := Chunk(request.size, Live(layout))],
              obtained := if cls.Some? then s.obtained[cls.value := s.obtained[cls.value] + 1] else s.obtained),
           Returned(Some(p)))
  }

  function FreeStep(s: Pool, p: nat, layout: Layout, spare: set<nat>): Pool
    requires |s.lists| == CLASSES
  {
    PositionIsSmallest(Max(layout.size, layout.align), 0);
    match ListIndex(layout)
    case Some(i) =>
      s.(lists := s.lists[i := [p] + s.lists[i]], chunks := s.chunks[p := Chunk(BLOCK_SIZES[i], Listed(i))])
    case None =>
      s.(chunks := s.chunks - {p}, spare := spare)
  }

  /** What the client gets: the head of the class list if there is one, otherwise what the fallback
      answers; only a new block of the last class panics.  A pointer points to a chunk that is now
      the client's own.  All other chunks are as they were. */
  lemma AllocAnswer(s: Pool, layout: Layout, reply: Reply)
    requires |s.lists| == CLASSES == |s.obtained|
    ensures AllocStep(s, layout, reply).1 ==
            match ListIndex(layout)
            case None => Returned(reply.answer)
            case Some(i) =>
              if i < CLASSES && s.lists[i] != [] then Returned(Some(s.lists[i][0]))
              else if i == CLASSES - 1 then Panicked
              else Returned(reply.answer)
    ensures var (s', r) := AllocStep(s, layout, reply);
            if r.Returned? && r.value.Some?
            then && r.value.value in s'.chunks && s'.chunks[r.value.value].owner == Live(layout)
                 && OthersKept(s, s', r.value.value)
            else s'.chunks == s.chunks && s'.lists == s.lists && s'.obtained == s.obtained
  {
    PositionIsSmallest(Max(layout.size, layout.align), 0);
    RequestMeaning(layout);
  }

  ghost predicate OthersKept(s: Pool, s': Pool, p: nat) {
    forall q | q != p :: (q in s'.chunks <==> q in s.chunks) && (q in s.chunks ==> s'.chunks[q] == s.chunks[q])
  }

  /** A freed block is no longer the client's: it is the head of its class list, or gone back to the
      fallback.  All other chunks are as they were. */
  lemma FreeOutcome(s: Pool, p: nat, layout: Layout, spare: set<nat>)
    requires |s.lists| == CLASSES
    ensures var s' := FreeStep(s, p, layout, spare);
            && OthersKept(s, s', p)
            && match ListIndex(layout)
               case None => p !in s'.chunks && s'.lists == s.lists && s'.spare == spare
               case Some(i) =>
                 && i < CLASSES && p in s'.chunks && s'.chunks[p].owner == Listed(i)
                 && |s'.lists[i]| == |s.lists[i]| + 1 && s'.lists[i][0] == p && s'.spare == s.spare
  {
    PositionIsSmallest(Max(layout.size, layout.align), 0);
  }

  function ClassOf(c: Chunk): Option<nat> {
    match c.owner
    case Live(layout) => ListIndex(layout)
    case Listed(i) => Some(i)
  }

  ghost predicate ChunkOk(s: Pool, p: nat)
    requires p in s.chunks
  {
    var c := s.chunks[p];
    && s.lo <= p && p + c.size <= s.hi && 0 < p && 0 < c.size
    && (c.owner.Live? ==>
          && c.owner.layout.Valid() && 0 < c.owner.layout.size <= c.size
          && (ListIndex(c.owner.layout).None? ==>
                c.size == c.owner.layout.size && p % c.owner.layout.align == 0))
    && (ClassOf(c).Some? ==>
          && ClassOf(c).value < CLASSES - 1
          && c.size == BLOCK_SIZES[ClassOf(c).value] && p % BLOCK_SIZES[ClassOf(c).value] == 0)
    && (forall a: nat | p <= a < p + c.size :: a !in s.spare)
  }

  ghost predicate ChunksApart(s: Pool, p: nat, q: nat)
    requires p in s.chunks && q in s.chunks
  {
    p + s.chunks[p].size <= q || q + s.chunks[q].size <= p
  }

  ghost predicate ListedAt(s: Pool, i: nat, k: nat)
    requires i < |s.lists| && k < |s.lists[i]|
  {
    s.lists[i][k] in s.chunks && s.chunks[s.lists[i][k]].owner == Listed(i)
  }

  ghost function OfClass(chunks: map<nat, Chunk>, i: nat): set<nat> {
    set p | p in chunks && ClassOf(chunks[p]) == Some(i)
  }

  /** Chunks are well-formed and pairwise disjoint, and none holds a spare byte. */
  ghost predicate ChunksOk(s: Pool) {
    && (forall a | a in s.spare :: s.lo <= a < s.hi)
    && (forall p | p in s.chunks :: ChunkOk(s, p))
    && (forall p, q | p in s.chunks && q in s.chunks && p != q :: ChunksApart(s, p, q))
  }

  /** Each list holds exactly the listed chunks of its class, each of them once. */
  ghost predicate ListsOk(s: Pool) {
    && |s.lists| == CLASSES && s.lists[CLASSES - 1] == []
    && (forall i, k | 0 <= i < CLASSES && 0 <= k < |s.lists[i]| :: ListedAt(s, i, k))
    && (forall i | 0 <= i < CLASSES :: NoRepeats(s.lists[i]))
    && (forall p | p in s.chunks && s.chunks[p].owner.Listed? ::
          s.chunks[p].owner.cls < CLASSES && p in s.lists[s.chunks[p].owner.cls])
  }

  ghost predicate Inv(s: Pool) {
    && ChunksOk(s) && ListsOk(s) && |s.obtained| == CLASSES
    && (forall i | 0 <= i < CLASSES :: s.obtained[i] == |OfClass(s.chunks, i)|)
  }

  lemma EmptyInv(lo: nat, hi: nat, spare: set<nat>)
    requires forall a | a in spare :: lo <= a < hi
    ensures Inv(Empty(lo, hi, spare)) && Empty(lo, hi, spare).chunks == map[] && Empty(lo, hi, spare).spare == spare
  {
    forall i | 0 <= i < CLASSES
      ensures OfClass(map[], i) == {}
    {
    }
  }

  datatype Op =
    | Alloc(layout: Layout, reply: Reply)
    | Free(ptr: nat, layout: Layout, spare: set<nat>)

  /** Clients ask for valid layouts of non-zero size, and free what they hold, with its layout. */
  ghost predicate Legal(s: Pool, op: Op) {
    match op
    case Alloc(layout, reply) =>
      layout.Valid() && layout.size > 0 && (Request(layout).Returned? ==> ReplyOk(s, Request(layout).value, reply))
    case Free(p, layout, spare) =>
      p in s.chunks && s.chunks[p].owner == Live(layout) && ReturnOk(s, p, s.chunks[p].size, spare)
  }

  function Step(s: Pool, op: Op): Pool
    requires |s.lists| == CLASSES == |s.obtained|
  {
    match op
    case Alloc(layout, reply) => AllocStep(s, layout, reply).0
    case Free(p, layout, spare) => FreeStep(s, p, layout, spare)
  }

  /** Handing a block to a client or putting it back into a list moves no chunk. */
  lemma OwnerChange(s: Pool, s': Pool, p: nat, c: Chunk)
    requires ChunksOk(s) && p in s.chunks && s'.chunks == s.chunks[p := c]
    requires s'.spare == s.spare && s'.lo == s.lo && s'.hi == s.hi
    requires c.size == s.chunks[p].size && ClassOf(s.chunks[p]).Some? && ClassOf(s.chunks[p]) == ClassOf(c)
    requires c.owner.Live? ==> c.owner.layout.Valid() && 0 < c.owner.layout.size <= c.size
    ensures ChunksOk(s')
    ensures forall i: nat :: OfClass(s'.chunks, i) == OfClass(s.chunks, i)
  {
    forall q | q in s'.chunks
      ensures ChunkOk(s', q)
    {
      assert ChunkOk(s, p) && ChunkOk(s, q);
    }
    forall q, r | q in s'.chunks && r in s'.chunks && q != r
      ensures ChunksApart(s', q, r)
    {
      assert ChunksApart(s, q, r);
    }
    forall i: nat
      ensures OfClass(s'.chunks, i) == OfClass(s.chunks, i)
    {
    }
  }

  lemma PopKeepsInv(s: Pool, layout: Layout, reply: Reply)
    requires Inv(s) && layout.Valid() && layout.size > 0
    requires ListIndex(layout).Some? && ListIndex(layout).value < CLASSES
    requires s.lists[ListIndex(layout).value] != []
    ensures Inv(AllocStep(s, layout, reply).0)
  {
    PositionIsSmallest(Max(layout.size, layout.align), 0);
    var i := ListIndex(layout).value;
    var p := s.lists[i][0];
    var c := Chunk(BLOCK_SIZES[i], Live(layout));
    assert ListedAt(s, i, 0) && ChunkOk(s, p);
    PopKeepsLists(s, i, c);
    OwnerChange(s, AllocStep(s, layout, reply).0, p, c);
  }

  lemma PopKeepsLists(s: Pool, i: nat, c: Chunk)
    requires ListsOk(s) && i < CLASSES && s.lists[i] != [] && c.owner.Live?
    ensures ListsOk(s.(lists := s.lists[i := s.lists[i][1..]], chunks := s.chunks[s.lists[i][0] := c]))
  {
    var p, list := s.lists[i][0], s.lists[i];
    var s' := s.(lists := s.lists[i := list[1..]], chunks := s.chunks[p := c]);
    assert ListedAt(s, i, 0);
    forall j, k | 0 <= j < CLASSES && 0 <= k < |s'.lists[j]|
      ensures ListedAt(s', j, k)
    {
      assert ListedAt(s, j, if j == i then k + 1 else k) && NoRepeats(s.lists[j]);
    }
    forall j | 0 <= j < CLASSES
      ensures NoRepeats(s'.lists[j])
    {
      assert NoRepeats(s.lists[j]);
    }
    assert list == [p] + list[1..];
  }

  lemma PushKeepsInv(s: Pool, p: nat, layout: Layout, spare: set<nat>)
    requires Inv(s) && p in s.chunks && s.chunks[p].owner == Live(layout) && ListIndex(layout).Some?
    ensures Inv(FreeStep(s, p, layout, spare))
  {
    PositionIsSmallest(Max(layout.size, layout.align), 0);
    var i := ListIndex(layout).value;
    assert ChunkOk(s, p);
    PushKeepsLists(s, p, i);
    OwnerChange(s, FreeStep(s, p, layout, spare), p, Chunk(BLOCK_SIZES[i], Listed(i)));
  }

  lemma PushKeepsLists(s: Pool, p: nat, i: nat)
    requires ListsOk(s) && p in s.chunks && s.chunks[p].owner.Live? && i < CLASSES - 1
    ensures ListsOk(s.(lists := s.lists[i := [p] + s.lists[i]],
                       chunks := s.chunks[p := Chunk(BLOCK_SIZES[i], Listed(i))]))
  {
    var s' := s.(lists := s.lists[i := [p] + s.lists[i]],
                 chunks := s.chunks[p := Chunk(BLOCK_SIZES[i], Listed(i))]);
    forall k | 0 <= k < |s.lists[i]|
      ensures s.lists[i][k] != p
    {
      assert ListedAt(s, i, k);
    }
    forall j, k | 0 <= j < CLASSES && 0 <= k < |s'.lists[j]|
      ensures ListedAt(s', j, k)
    {
      if j != i || k > 0 {
        assert ListedAt(s, j, if j == i then k - 1 else k);
      }
    }
    forall j | 0 <= j < CLASSES
      ensures NoRepeats(s'.lists[j])
    {
      assert NoRepeats(s.lists[j]);
    }
  }

  lemma FallbackKeepsInv(s: Pool, layout: Layout, reply: Reply)
    requires Inv(s) && Legal(s, Alloc(layout, reply))
    requires Request(layout).Returned?
    requires ListIndex(layout).Some? && ListIndex(layout).value < CLASSES ==> s.lists[ListIndex(layout).value] == []
    ensures Inv(AllocStep(s, layout, reply).0)
  {
    PositionIsSmallest(Max(layout.size, layout.align), 0);
    RequestMeaning(layout);
    var s' := AllocStep(s, layout, reply).0;
    if reply.answer.None? {
      forall q | q in s'.chunks
        ensures ChunkOk(s', q)
      {
        assert ChunkOk(s, q);
      }
      forall q, r | q in s'.chunks && r in s'.chunks && q != r
        ensures ChunksApart(s', q, r)
      {
        assert ChunksApart(s, q, r);
      }
      forall j, k | 0 <= j < CLASSES && 0 <= k < |s'.lists[j]|
        ensures ListedAt(s', j, k)
      {
        assert ListedAt(s, j, k);
      }
    } else {
      NewChunkKeepsInv(s, layout, reply);
    }
  }

  lemma NewChunkApart(s: Pool, p: nat, n: nat, q: nat)
    requires ChunksOk(s) && q in s.chunks && n > 0
    requires forall a: nat | p <= a < p + n :: a in s.spare
    ensures p + n <= q || q + s.chunks[q].size <= p
  {
    assert ChunkOk(s, q);
    var a := Max(p, q);
    assert a < p + n ==> a in s.spare;
  }

  lemma NewChunkOk(s: Pool, layout: Layout, reply: Reply)
    requires Inv(s) && Legal(s, Alloc(layout, reply))
    requires Request(layout).Returned? && reply.answer.Some?
    requires ListIndex(layout).Some? && ListIndex(layout).value < CLASSES ==> s.lists[ListIndex(layout).value] == []
    ensures var p, s' := reply.answer.value, AllocStep(s, layout, reply).0;
            p in s'.chunks && ChunkOk(s', p) && Request(layout).value.size > 0
  {
    PositionIsSmallest(Max(layout.size, layout.align), 0);
    RequestMeaning(layout);
    var p, n := reply.answer.value, Request(layout).value.size;
    assert p in s.spare && p + n - 1 in s.spare;
  }

  lemma NewChunkKeepsChunks(s: Pool, s': Pool, p: nat)
    requires ChunksOk(s) && p !in s.chunks && p in s'.chunks && s'.chunks == s.chunks[p := s'.chunks[p]]
    requires s'.spare <= s.spare && s'.lo == s.lo && s'.hi == s.hi && ChunkOk(s', p)
    requires forall a: nat | p <= a < p + s'.chunks[p].size :: a in s.spare
    ensures ChunksOk(s')
  {
    forall q | q in s.chunks
      ensures ChunkOk(s', q) && ChunksApart(s', p, q) && ChunksApart(s', q, p)
    {
      assert ChunkOk(s, q);
      NewChunkApart(s, p, s'.chunks[p].size, q);
    }
    forall q, r | q in s.chunks && r in s.chunks && q != r
      ensures ChunksApart(s', q, r)
    {
      assert ChunksApart(s, q, r);
    }
  }

  lemma NewChunkKeepsCounts(s: Pool, s': Pool, p: nat)
    requires |s.obtained| == |s'.obtained| == CLASSES
    requires forall i | 0 <= i < CLASSES :: s.obtained[i] == |OfClass(s.chunks, i)|
    requires p !in s.chunks && p in s'.chunks && s'.chunks == s.chunks[p := s'.chunks[p]]
    requires forall i | 0 <= i < CLASSES ::
               s'.obtained[i] == s.obtained[i] + (if ClassOf(s'.chunks[p]) == Some(i) then 1 else 0)
    ensures forall i | 0 <= i < CLASSES :: s'.obtained[i] == |OfClass(s'.chunks, i)|
  {
    forall i | 0 <= i < CLASSES
      ensures s'.obtained[i] == |OfClass(s'.chunks, i)|
    {
      NewChunkClass(s.chunks, p, s'.chunks[p], i);
    }
  }

  lemma NewChunkKeepsInv(s: Pool, layout: Layout, reply: Reply)
    requires Inv(s) && Legal(s, Alloc(layout, reply))
    requires Request(layout).Returned? && reply.answer.Some?
    requires ListIndex(layout).Some? && ListIndex(layout).value < CLASSES ==> s.lists[ListIndex(layout).value] == []
    ensures Inv(AllocStep(s, layout, reply).0)
  {
    PositionIsSmallest(Max(layout.size, layout.align), 0);
    RequestMeaning(layout);
    var s' := AllocStep(s, layout, reply).0;
    var p := reply.answer.value;
    NewChunkOk(s, layout, reply);
    assert p !in s.chunks by {
      assert p in s.spare && (p in s.chunks ==> ChunkOk(s, p));
    }
    NewChunkKeepsChunks(s, s', p);
    NewChunkKeepsLists(s, p, s'.chunks[p]);
    NewChunkKeepsCounts(s, s', p);
  }

  lemma NewChunkKeepsLists(s: Pool, p: nat, c: Chunk)
    requires ListsOk(s) && p !in s.chunks && c.owner.Live?
    ensures forall s': Pool | s'.lists == s.lists && s'.chunks == s.chunks[p := c] :: ListsOk(s')
  {
    forall s': Pool | s'.lists == s.lists && s'.chunks == s.chunks[p := c]
      ensures ListsOk(s')
    {
      forall j, k | 0 <= j < CLASSES && 0 <= k < |s'.lists[j]|
        ensures ListedAt(s', j, k)
      {
        assert ListedAt(s, j, k);
      }
    }
  }

  lemma NewChunkClass(chunks: map<nat, Chunk>, p: nat, c: Chunk, i: nat)
    requires p !in chunks
    ensures |OfClass(chunks[p := c], i)| == |OfClass(chunks, i)| + (if ClassOf(c) == Some(i) then 1 else 0)
  {
    assert OfClass(chunks[p := c], i) == OfClass(chunks, i) + (if ClassOf(c) == Some(i) then {p} else {});
  }

  lemma DirectFreeKeepsInv(s: Pool, p: nat, layout: Layout, spare: set<nat>)
    requires Inv(s) && Legal(s, Free(p, layout, spare)) && ListIndex(layout).None?
    ensures Inv(FreeStep(s, p, layout, spare))
  {
    var s' := FreeStep(s, p, layout, spare);
    assert ChunkOk(s, p);
    forall q | q in s'.chunks
      ensures ChunkOk(s', q)
    {
      assert ChunkOk(s, q) && ChunksApart(s, p, q);
    }
    forall q, r | q in s'.chunks && r in s'.chunks && q != r
      ensures ChunksApart(s', q, r)
    {
      assert ChunksApart(s, q, r);
    }
    forall j, k | 0 <= j < CLASSES && 0 <= k < |s'.lists[j]|
      ensures ListedAt(s', j, k)
    {
      assert ListedAt(s, j, k);
    }
    forall i | 0 <= i < CLASSES
      ensures s'.obtained[i] == |OfClass(s'.chunks, i)|
    {
      assert OfClass(s'.chunks, i) == OfClass(s.chunks, i);
    }
  }

  lemma StepKeepsInv(s: Pool, op: Op)
    requires Inv(s) && Legal(s, op)
    ensures Inv(Step(s, op)) && Step(s, op).lo == s.lo && Step(s, op).hi == s.hi
  {
    match op {
      case Alloc(layout, reply) =>
        PositionIsSmallest(Max(layout.size, layout.align), 0);
        if ListIndex(layout).Some? && s.lists[ListIndex(layout).value] != [] {
          PopKeepsInv(s, layout, reply);
        } else if Request(layout).Returned? {
          FallbackKeepsInv(s, layout, reply);
        }
      case Free(p, layout, spare) =>
        if ListIndex(layout).Some? {
          PushKeepsInv(s, p, layout, spare);
        } else {
          DirectFreeKeepsInv(s, p, layout, spare);
        }
    }
  }

  ghost predicate LegalRun(s: Pool, ops: seq<Op>)
    requires |s.lists| == CLASSES == |s.obtained|
    decreases |ops|
  {
    ops != [] ==> Legal(s, ops[0]) && LegalRun(Step(s, ops[0]), ops[1..])
  }

  ghost function Run(s: Pool, ops: seq<Op>): (r: Pool)
    requires |s.lists| == CLASSES == |s.obtained| && LegalRun(s, ops)
    ensures |r.lists| == CLASSES == |r.obtained|
    decreases |ops|
  {
    if ops == [] then s else Run(Step(s, ops[0]), ops[1..])
  }

  /** Over every run of allocations and frees, with every behaviour of the fallback. */
  lemma {:induction false} RunKeepsInv(s: Pool, ops: seq<Op>)
    requires Inv(s) && LegalRun(s, ops)
    ensures Inv(Run(s, ops)) && Run(s, ops).lo == s.lo && Run(s, ops).hi == s.hi
    decreases |ops|
  {
    if ops == [] {
    } else {
      StepKeepsInv(s, ops[0]);
      RunKeepsInv(Step(s, ops[0]), ops[1..]);
    }
  }

  /** What a client may rely on: its block is aligned as requested, large enough, inside the heap,
      and overlaps neither other blocks nor free blocks nor the fallback's memory. */
  ghost predicate ClientSafe(s: Pool, p: nat, layout: Layout)
    requires |s.lists| == CLASSES && p in s.chunks
  {
    && layout.Valid() && p % layout.align == 0
    && s.lo <= p && p + layout.size <= p + s.chunks[p].size <= s.hi
    && (forall q | q in s.chunks && q != p :: p + layout.size <= q || q + s.chunks[q].size <= p)
    && (forall i, k | 0 <= i < CLASSES && 0 <= k < |s.lists[i]| ::
          p + layout.size <= s.lists[i][k] || s.lists[i][k] + BLOCK_SIZES[i] <= p)
    && (forall a: nat | p <= a < p + layout.size :: a !in s.spare)
  }

  lemma InvMeansSafe(s: Pool, p: nat, layout: Layout)
    requires Inv(s) && p in s.chunks && s.chunks[p].owner == Live(layout)
    ensures ClientSafe(s, p, layout)
  {
    assert ChunkOk(s, p);
    forall q | q in s.chunks && q != p
      ensures p + layout.size <= q || q + s.chunks[q].size <= p
    {
      assert ChunksApart(s, p, q);
    }
    forall i, k | 0 <= i < CLASSES && 0 <= k < |s.lists[i]|
      ensures p + layout.size <= s.lists[i][k] || s.lists[i][k] + BLOCK_SIZES[i] <= p
    {
      assert ListedAt(s, i, k) && ChunkOk(s, s.lists[i][k]);
    }
    assert p % layout.align == 0 by {
      if ListIndex(layout).Some? {
        PositionIsSmallest(Max(layout.size, layout.align), 0);
        var i := ListIndex(layout).value;
        ClassSizesArePow2(i);
        Pow2Order(layout.align, BLOCK_SIZES[i]);
      }
    }
  }

  /** Over every run from a fresh allocator, whatever the fallback does: every block that a client
      holds is as it asked for, inside the heap, and overlaps no other block, free or held, and no
      byte of the fallback. */
  lemma RunIsSafe(lo: nat, hi: nat, spare: set<nat>, ops: seq<Op>)
    requires forall a | a in spare :: lo <= a < hi
    requires LegalRun(Empty(lo, hi, spare), ops)
    ensures var s := Run(Empty(lo, hi, spare), ops);
            && s.lo == lo && s.hi == hi
            && forall p | p in s.chunks && s.chunks[p].owner.Live? :: ClientSafe(s, p, s.chunks[p].owner.layout)
  {
    EmptyInv(lo, hi, spare);
    RunKeepsInv(Empty(lo, hi, spare), ops);
    var s := Run(Empty(lo, hi, spare), ops);
    forall p | p in s.chunks && s.chunks[p].owner.Live?
      ensures ClientSafe(s, p, s.chunks[p].owner.layout)
    {
      InvMeansSafe(s, p, s.chunks[p].owner.layout);
    }
  }

  /** The blocks of a class that a client holds. */
  ghost function LiveOf(s: Pool, i: nat): set<nat> {
    set p | p in s.chunks && s.chunks[p].owner.Live? && ListIndex(s.chunks[p].owner.layout) == Some(i)
  }

  ghost function ListedOf(s: Pool, i: nat): set<nat> {
    set p | p in s.chunks && s.chunks[p].owner == Listed(i)
  }

  /** Blocks taken from the fallback for a class are either held by a client or in its list. */
  lemma ClassBalance(s: Pool, i: nat)
    requires Inv(s) && i < CLASSES
    ensures s.obtained[i] == |LiveOf(s, i)| + |s.lists[i]|
  {
    forall p
      ensures p in Elements(s.lists[i]) <==> p in ListedOf(s, i)
    {
      ListHoldsItsClass(s, i, p);
    }
    assert Elements(s.lists[i]) == ListedOf(s, i);
    SplitByOwner(s, i);
    NoRepeatsSize(s.lists[i]);
  }

  lemma SplitByOwner(s: Pool, i: nat)
    ensures |OfClass(s.chunks, i)| == |LiveOf(s, i)| + |ListedOf(s, i)|
  {
    assert OfClass(s.chunks, i) == LiveOf(s, i) + ListedOf(s, i) && LiveOf(s, i) !! ListedOf(s, i);
  }

  lemma ListHoldsItsClass(s: Pool, i: nat, p: nat)
    requires ListsOk(s) && i < CLASSES
    ensures p in Elements(s.lists[i]) <==> p in s.chunks && s.chunks[p].owner == Listed(i)
  {
    if p in s.lists[i] {
      var k :| 0 <= k < |s.lists[i]| && s.lists[i][k] == p;
      assert ListedAt(s, i, k);
    }
  }

  ghost function Elements(list: seq<nat>): set<nat> {
    set p | p in list
  }

  lemma {:induction false} NoRepeatsSize(list: seq<nat>)
    requires NoRepeats(list)
    ensures |Elements(list)| == |list|
  {
    if list == [] {
    } else {
      var tail := list[1..];
      assert NoRepeats(tail);
      NoRepeatsSize(tail);
      assert list == [list[0]] + tail;
      assert Elements(list) == {list[0]} + Elements(tail) && list[0] !in Elements(tail);
    }
  }

  /** Class 4098 is not a power of two: exactly the requests that fall into it panic. */
  lemma AllocPanicsIff(s: Pool, layout: Layout, reply: Reply)
    requires Inv(s)
    ensures AllocStep(s, layout, reply).1.Panicked? <==> 2048 < Max(layout.size, layout.align) <= 4098
  {
    PositionIsSmallest(Max(layout.size, layout.align), 0);
    RequestMeaning(layout);
    assert s.lists[CLASSES - 1] == [];
  }

  /** For example, 3000 bytes from a fresh allocator. */
  lemma LargeRequestPanics(lo: nat, hi: nat, spare: set<nat>, reply: Reply)
    ensures AllocStep(Empty(lo, hi, spare), Layout(3000, 8), reply).1 == Panicked
  {
    PositionIsSmallest(3000, 0);
    RequestMeaning(Layout(3000, 8));
  }

  /** A freed block is the next one to be handed out for its class, whatever the layout. */
  lemma LastFreedIsFirstReused(s: Pool, p: nat, layout: Layout, next: Layout, spare: set<nat>, reply: Reply)
    requires Inv(s) && Legal(s, Free(p, layout, spare))
    requires ListIndex(layout).Some? && ListIndex(next) == ListIndex(layout)
    ensures var s' := FreeStep(s, p, layout, spare);
            && AllocStep(s', next, reply).1 == Returned(Some(p))
            && AllocStep(s', layout, reply).0 == s
  {
    PositionIsSmallest(Max(layout.size, layout.align), 0);
    var i := ListIndex(layout).value;
    var s' := FreeStep(s, p, layout, spare);
    assert ChunkOk(s, p);
    PushThenPop(s.lists, i, p);
    assert AllocStep(s', layout, reply).0.chunks == s.chunks;
  }

  lemma PushThenPop(lists: seq<seq<nat>>, i: nat, p: nat)
    requires i < |lists|
    ensures var pushed := lists[i := [p] + lists[i]];
            pushed[i][0] == p && pushed[i := pushed[i][1..]] == lists
  {
    assert ([p] + lists[i])[1..] == lists[i];
  }
}
