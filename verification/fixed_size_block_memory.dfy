// kernel/src/allocator/fixed_size_block.rs: the class lists as they lie in memory.  A free
// block holds the address of the next free block of its class in its first word; 0 is `None`.
module FixedSizeBlockMemory {
  import opened Wrappers
  import opened Alignment
  import opened FixedSizeBlockModel

  type Memory = map<nat, nat>

  function Link(list: seq<nat>, k: nat): nat {
    if k < |list| then list[k] else 0
  }

  ghost predicate NodeAt(mem: Memory, list: seq<nat>, k: nat)
    requires k < |list|
  {
    list[k] != 0 && list[k] in mem && mem[list[k]] == Link(list, k + 1)
  }

  ghost predicate Chain(mem: Memory, head: nat, list: seq<nat>) {
    head == Link(list, 0) && forall k | 0 <= k < |list| :: NodeAt(mem, list, k)
  }

  /** No block is in two places. */
  ghost predicate AllDistinct(lists: seq<seq<nat>>) {
    && (forall i | 0 <= i < |lists| :: NoRepeats(lists[i]))
    && forall i, j | 0 <= i < |lists| && 0 <= j < |lists| && i != j :: NothingShared(lists[i], lists[j])
  }

  ghost predicate NothingShared(s: seq<nat>, t: seq<nat>) {
    forall p | p in s :: p !in t
  }

  class FixedSizeBlockAllocator {
    const heads: array<nat>
    var mem: Memory
    ghost var pool: Pool

    ghost predicate Valid()
      reads this, heads
    {
      && heads.Length == CLASSES == |pool.lists| == |pool.obtained|
      && AllDistinct(pool.lists)
      && forall i | 0 <= i < CLASSES :: Chain(mem, heads[i], pool.lists[i])
    }

    constructor (lo: nat, hi: nat, spare: set<nat>, contents: Memory)
      ensures Valid() && pool == Empty(lo, hi, spare) && mem == contents && fresh(heads)
    {
      heads := new nat[CLASSES](i => 0);
      mem := contents;
      pool := Empty(lo, hi, spare);
    }

    /** `alloc`, with the fallback's reply to the request it may make, and what it then leaves in
        memory.  Refines `AllocStep`; the only word that this code itself writes is the link of the
        block it hands out. */
    method Alloc(layout: Layout, reply: Reply, left: Memory) returns (r: Outcome<Option<nat>>)
      requires Valid() && Inv(pool) && Legal(pool, FixedSizeBlockModel.Alloc(layout, reply))
      requires KeptOutside(mem, left, pool.spare, 0, 0)
      modifies this, heads
      ensures Valid() && pool == AllocStep(old(pool), layout, reply).0 && r == AllocStep(old(pool), layout, reply).1
      ensures mem == if Pops(old(pool), layout) then old(mem)[r.value.value := 0]
                     else if Request(layout).Returned? then left else old(mem)
    {
      PositionIsSmallest(Max(layout.size, layout.align), 0);
      match ListIndex(layout) {
        case Some(i) =>
          if heads[i] != 0 {
            var node := Pop(i);
            pool := AllocStep(pool, layout, reply).0;
            return Returned(Some(node));
          }
          EmptyList(mem, heads[i], pool.lists[i]);
          if BlockLayout(i).Panicked? {
            return Panicked; // Layout::from_size_align(..).unwrap()
          }
        case None =>
      }
      ChainsKept(mem, left, pool, 0, 0);
      mem := left;
      pool := AllocStep(pool, layout, reply).0;
      return Returned(reply.answer);
    }

    /** Takes the first block of list `i`. */
    method Pop(i: nat) returns (node: nat)
      requires Valid() && i < CLASSES && heads[i] != 0
      modifies this`mem, heads
      ensures pool.lists[i] != [] && node == pool.lists[i][0] && mem == old(mem)[node := 0]
      ensures AllDistinct(pool.lists[i := pool.lists[i][1..]])
      ensures forall j | 0 <= j < CLASSES :: Chain(mem, heads[j], pool.lists[i := pool.lists[i][1..]][j])
    {
      node := heads[i];
      ghost var list := pool.lists[i];
      assert Chain(mem, heads[i], list);
      assert list != [] && node == list[0] && NodeAt(mem, list, 0);
      heads[i] := 0;
      heads[i] := mem[node];
      mem := mem[node := 0];
      Unlinked(old(mem), pool.lists, i);
    }

    /** `dealloc`: the asserts on the node's size and alignment and the null check never fire,
        and the only word that this code itself writes is the link in the freed block.  A block
        without a class goes to the fallback, with what it then leaves in memory. */
    method Dealloc(ptr: nat, layout: Layout, ghost spare: set<nat>, left: Memory) returns (r: Outcome<()>)
      requires Valid() && Inv(pool) && Legal(pool, Free(ptr, layout, spare))
      requires KeptOutside(mem, left, pool.spare, ptr, pool.chunks[ptr].size)
      modifies this, heads
      ensures Valid() && r.Returned? && pool == FreeStep(old(pool), ptr, layout, spare)
      ensures ListIndex(layout).Some? ==> ptr in mem && mem == old(mem)[ptr := mem[ptr]]
      ensures ListIndex(layout).None? ==> mem == left
    {
      PositionIsSmallest(Max(layout.size, layout.align), 0);
      LiveIsNotListed(pool, ptr);
      assert ChunkOk(pool, ptr);
      match ListIndex(layout) {
        case Some(i) =>
          var next := heads[i];
          heads[i] := 0;
          if 8 > BLOCK_SIZES[i] {
            return Panicked; // assert!
          }
          mem := mem[ptr := next];
          heads[i] := ptr;
          pool := FreeStep(pool, ptr, layout, spare);
          Linked(old(mem), old(pool).lists, i, ptr, next);
          return Returned(());
        case None =>
          if ptr == 0 {
            return Panicked; // NonNull::new(ptr).unwrap()
          }
          ChainsKept(mem, left, pool, ptr, pool.chunks[ptr].size);
          mem := left;
          pool := FreeStep(pool, ptr, layout, spare);
          return Returned(());
      }
    }
  }

  /** Only words at spare addresses, and in the block of `size` bytes at `p`, may differ. */
  ghost predicate KeptOutside(m: Memory, m': Memory, spare: set<nat>, p: nat, size: nat) {
    forall a: nat | a !in spare && !(p <= a < p + size) :: (a in m <==> a in m') && (a in m ==> m[a] == m'[a])
  }

  /** There is a free block for the request. */
  predicate Pops(s: Pool, layout: Layout)
    requires |s.lists| == CLASSES
  {
    PositionIsSmallest(Max(layout.size, layout.align), 0);
    ListIndex(layout).Some? && s.lists[ListIndex(layout).value] != []
  }

  lemma EmptyList(m: Memory, head: nat, list: seq<nat>)
    requires Chain(m, head, list) && head == 0
    ensures list == []
  {
    assert list != [] ==> NodeAt(m, list, 0);
  }

  /** What the fallback does to its own memory, and to a block that it gets back, does not reach
      the lists: no listed block holds a spare byte or meets a live one. */
  lemma ChainsKept(m: Memory, m': Memory, s: Pool, p: nat, size: nat)
    requires Inv(s) && KeptOutside(m, m', s.spare, p, size)
    requires size > 0 ==> p in s.chunks && s.chunks[p].owner.Live? && s.chunks[p].size == size
    ensures forall i, head | 0 <= i < CLASSES && Chain(m, head, s.lists[i]) :: Chain(m', head, s.lists[i])
  {
    forall i, head | 0 <= i < CLASSES && Chain(m, head, s.lists[i])
      ensures Chain(m', head, s.lists[i])
    {
      forall k | 0 <= k < |s.lists[i]|
        ensures NodeAt(m', s.lists[i], k)
      {
        assert ListedAt(s, i, k) && ChunkOk(s, s.lists[i][k]) && NodeAt(m, s.lists[i], k);
        assert size > 0 ==> ChunksApart(s, p, s.lists[i][k]);
      }
    }
  }

  /** Taking the first block of list `i`. */
  lemma Unlinked(m: Memory, lists: seq<seq<nat>>, i: nat)
    requires i < |lists| && lists[i] != [] && AllDistinct(lists)
    requires forall j | 0 <= j < |lists| :: Chain(m, Link(lists[j], 0), lists[j])
    ensures var m', lists' := m[lists[i][0] := 0], lists[i := lists[i][1..]];
            && AllDistinct(lists')
            && forall j | 0 <= j < |lists| :: Chain(m', Link(lists'[j], 0), lists'[j])
  {
    var m', lists' := m[lists[i][0] := 0], lists[i := lists[i][1..]];
    forall j, k | 0 <= j < |lists| && 0 <= k < |lists'[j]|
      ensures NodeAt(m', lists'[j], k)
    {
      assert Chain(m, Link(lists[j], 0), lists[j]);
      assert NodeAt(m, lists[j], if j == i then k + 1 else k);
      assert NoRepeats(lists[j]) && (j != i ==> NothingShared(lists[i], lists[j]));
      assert lists[i][0] in lists[i];
      assert lists'[j][k] in lists'[j];
    }
    forall j | 0 <= j < |lists|
      ensures NoRepeats(lists'[j])
    {
      assert NoRepeats(lists[j]);
    }
    forall j, k | 0 <= j < |lists| && 0 <= k < |lists| && j != k
      ensures NothingShared(lists'[j], lists'[k])
    {
      assert NothingShared(lists[j], lists[k]);
    }
  }

  /** Putting a block in front of list `i`. */
  lemma Linked(m: Memory, lists: seq<seq<nat>>, i: nat, p: nat, next: nat)
    requires i < |lists| && AllDistinct(lists) && p != 0 && next == Link(lists[i], 0)
    requires forall j | 0 <= j < |lists| :: p !in lists[j] && Chain(m, Link(lists[j], 0), lists[j])
    ensures var m', lists' := m[p := next], lists[i := [p] + lists[i]];
            && AllDistinct(lists')
            && forall j | 0 <= j < |lists| :: Chain(m', Link(lists'[j], 0), lists'[j])
  {
    var m', lists' := m[p := next], lists[i := [p] + lists[i]];
    forall j, k | 0 <= j < |lists| && 0 <= k < |lists'[j]|
      ensures NodeAt(m', lists'[j], k)
    {
      assert Chain(m, Link(lists[j], 0), lists[j]);
      if j != i {
        assert NodeAt(m, lists[j], k) && lists[j][k] in lists[j];
      } else if k > 0 {
        assert NodeAt(m, lists[i], k - 1) && lists[i][k - 1] in lists[i];
      }
    }
    forall j | 0 <= j < |lists|
      ensures NoRepeats(lists'[j])
    {
      assert NoRepeats(lists[j]);
      assert forall k | 0 <= k < |lists[i]| :: lists[i][k] in lists[i];
    }
    forall j, k | 0 <= j < |lists| && 0 <= k < |lists| && j != k
      ensures NothingShared(lists'[j], lists'[k])
    {
      assert NothingShared(lists[j], lists[k]);
    }
  }

  lemma LiveIsNotListed(s: Pool, p: nat)
    requires ListsOk(s) && p in s.chunks && s.chunks[p].owner.Live?
    ensures forall i | 0 <= i < CLASSES :: p !in s.lists[i]
  {
    forall i | 0 <= i < CLASSES
      ensures p !in s.lists[i]
    {
      ListHoldsItsClass(s, i, p);
    }
  }

  /** The words of a client's block. */
  ghost predicate SameWords(m: Memory, m': Memory, p: nat, size: nat) {
    forall a: nat | p <= a < p + size :: (a in m <==> a in m') && (a in m ==> m[a] == m'[a])
  }

  /** The fallback writes to its own memory, and to a block that the operation gives it. */
  ghost predicate MayLeave(s: Pool, op: Op, m: Memory, left: Memory)
    requires Legal(s, op)
  {
    match op
    case Alloc(_, _) => KeptOutside(m, left, s.spare, 0, 0)
    case Free(p, _, _) => KeptOutside(m, left, s.spare, p, s.chunks[p].size)
  }

  /** The block at `p` is the client's, aligned and large enough for the layout. */
  ghost predicate Owns(s: Pool, p: nat, layout: Layout) {
    && p in s.chunks && s.chunks[p].owner == Live(layout)
    && layout.align > 0 && p % layout.align == 0 && layout.size <= s.chunks[p].size
  }

  lemma AnswerIsSafe(s: Pool, layout: Layout, reply: Reply)
    requires Inv(s) && Legal(s, Alloc(layout, reply))
    ensures var (s', r) := AllocStep(s, layout, reply);
            r.Returned? && r.value.Some? ==> Owns(s', r.value.value, layout)
  {
    var (s', r) := AllocStep(s, layout, reply);
    AllocAnswer(s, layout, reply);
    StepKeepsInv(s, Alloc(layout, reply));
    if r.Returned? && r.value.Some? {
      InvMeansSafe(s', r.value.value, layout);
    }
  }

  /** What the client held before and still holds is as it was, word for word. */
  ghost predicate Spared(s: Pool, s': Pool, m: Memory, m': Memory, freed: Option<nat>) {
    forall p | p in s.chunks && s.chunks[p].owner.Live? && freed != Some(p) ::
      p in s'.chunks && s'.chunks[p] == s.chunks[p] && SameWords(m, m', p, s.chunks[p].size)
  }

  /** One client operation on a sound pool, with whatever the fallback leaves in its memory.  The
      pool stays sound, a returned pointer is to a block that is now the client's, and no word
      changes in any block that the client held before and still holds. */
  method Perform(a: FixedSizeBlockAllocator, op: Op, left: Memory) returns (r: Outcome<Option<nat>>)
    requires a.Valid() && Inv(a.pool) && Legal(a.pool, op)
    requires MayLeave(a.pool, op, a.mem, left)
    modifies a, a.heads
    ensures a.Valid() && Inv(a.pool) && a.pool == Step(old(a.pool), op)
    ensures op.Alloc? ==> r == AllocStep(old(a.pool), op.layout, op.reply).1
    ensures op.Alloc? && r.Returned? && r.value.Some? ==> Owns(a.pool, r.value.value, op.layout)
    ensures op.Free? ==> r.Returned? && (op.ptr in a.pool.chunks ==> !a.pool.chunks[op.ptr].owner.Live?)
    ensures Spared(old(a.pool), a.pool, old(a.mem), a.mem, if op.Free? then Some(op.ptr) else None)
  {
    StepKeepsInv(a.pool, op);
    match op {
      case Alloc(layout, reply) => r := PerformAlloc(a, layout, reply, left);
      case Free(ptr, layout, spare) => r := PerformFree(a, ptr, layout, spare, left);
    }
  }

  method PerformAlloc(a: FixedSizeBlockAllocator, layout: Layout, reply: Reply, left: Memory) returns (r: Outcome<Option<nat>>)
    requires a.Valid() && Inv(a.pool) && Legal(a.pool, Alloc(layout, reply))
    requires KeptOutside(a.mem, left, a.pool.spare, 0, 0)
    modifies a, a.heads
    ensures a.Valid() && a.pool == AllocStep(old(a.pool), layout, reply).0 && r == AllocStep(old(a.pool), layout, reply).1
    ensures r.Returned? && r.value.Some? ==> Owns(a.pool, r.value.value, layout)
    ensures Spared(old(a.pool), a.pool, old(a.mem), a.mem, None)
  {
    ghost var s := a.pool;
    AnswerIsSafe(s, layout, reply);
    r := a.Alloc(layout, reply, left);
    forall p | p in s.chunks && s.chunks[p].owner.Live?
      ensures p in a.pool.chunks && a.pool.chunks[p] == s.chunks[p]
      ensures SameWords(old(a.mem), a.mem, p, s.chunks[p].size)
    {
      AllocSparesLive(s, layout, reply, p);
      LiveOutside(s, p, old(a.mem), left);
    }
  }

  method PerformFree(a: FixedSizeBlockAllocator, ptr: nat, layout: Layout, ghost spare: set<nat>, left: Memory)
    returns (r: Outcome<Option<nat>>)
    requires a.Valid() && Inv(a.pool) && Legal(a.pool, Free(ptr, layout, spare))
    requires KeptOutside(a.mem, left, a.pool.spare, ptr, a.pool.chunks[ptr].size)
    modifies a, a.heads
    ensures a.Valid() && a.pool == FreeStep(old(a.pool), ptr, layout, spare)
    ensures r.Returned? && (ptr in a.pool.chunks ==> !a.pool.chunks[ptr].owner.Live?)
    ensures Spared(old(a.pool), a.pool, old(a.mem), a.mem, Some(ptr))
  {
    ghost var s := a.pool;
    FreeOutcome(s, ptr, layout, spare);
    var done := a.Dealloc(ptr, layout, spare, left);
    r := Returned(None);
    forall p | p in s.chunks && p != ptr
      ensures SameWords(old(a.mem), a.mem, p, s.chunks[p].size)
    {
      FreeSparesOthers(s, ptr, p, old(a.mem), a.mem);
    }
  }

  lemma LiveOutside(s: Pool, p: nat, m: Memory, m': Memory)
    requires Inv(s) && p in s.chunks && KeptOutside(m, m', s.spare, 0, 0)
    ensures SameWords(m, m', p, s.chunks[p].size)
  {
    assert ChunkOk(s, p);
  }

  lemma FreeSparesOthers(s: Pool, ptr: nat, p: nat, m: Memory, m': Memory)
    requires Inv(s) && p in s.chunks && ptr in s.chunks && p != ptr
    requires KeptOutside(m, m', s.spare, ptr, s.chunks[ptr].size)
    ensures SameWords(m, m', p, s.chunks[p].size)
  {
    assert ChunksApart(s, p, ptr) && ChunkOk(s, p);
  }

  /** The block that an allocation hands out lies apart from every block held before. */
  lemma AllocSparesLive(s: Pool, layout: Layout, reply: Reply, p: nat)
    requires Inv(s) && Legal(s, Alloc(layout, reply)) && p in s.chunks && s.chunks[p].owner.Live?
    ensures var (s', r) := AllocStep(s, layout, reply);
            && p in s'.chunks && s'.chunks[p] == s.chunks[p]
            && (r.Returned? && r.value.Some? ==> r.value.value < p || p + s.chunks[p].size <= r.value.value)
  {
    var (s', r) := AllocStep(s, layout, reply);
    PositionIsSmallest(Max(layout.size, layout.align), 0);
    StepKeepsInv(s, Alloc(layout, reply));
    if r.Returned? && r.value.Some? {
      var q := r.value.value;
      if ListIndex(layout).Some? && s.lists[ListIndex(layout).value] != [] {
        assert ListedAt(s, ListIndex(layout).value, 0) && ChunksApart(s, p, q);
        assert ChunkOk(s, q);
      } else {
        NewChunkOk(s, layout, reply);
        NewChunkApart(s, q, Request(layout).value.size, p);
        assert ChunkOk(s, p);
      }
    }
  }
}
