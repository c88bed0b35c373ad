// kernel/src/allocator/bump.rs: the kernel's global allocator.
module BumpModel {
  import opened Wrappers
  import opened Bits
  import opened Alignment
  import opened Regions

  /** `live` lists the blocks that are allocated and not yet freed, oldest first. */
  datatype Bump = Bump(heapStart: nat, heapEnd: nat, next: nat, allocations: nat, live: seq<Block>)

  datatype Block = Block(start: nat, layout: Layout) {
    function End(): nat { start + layout.size }
  }

  function Init(start: nat, size: nat): Bump {
    Bump(start, Min(start + size, W64 - 1), start, 0, [])
  }

  function AllocStep(s: Bump, layout: Layout): (Bump, Outcome<Option<nat>>)
    requires layout.Valid()
  {
    match AlignUp(s.next, layout.align)
    case Panicked => (s, Panicked)
    case Returned(start) =>
      var end := start + layout.size;
      if end >= W64 || end > s.heapEnd then (s, Returned(None))
      else if s.allocations + 1 >= W64 then (s, Panicked)
      else (s.(next := end, allocations := s.allocations + 1, live := s.live + [Block(start, layout)]),
            Returned(Some(start)))
  }

  function FreeStep(s: Bump, i: nat): Bump
    requires i < |s.live| && s.allocations > 0
  {
    var n := s.allocations - 1;
    s.(allocations := n, next := if n == 0 then s.heapStart else s.next, live := Remove(s.live, i))
  }

  /** Live blocks lie in allocation order, without overlap, inside the used part of the heap;
      the counter counts them; and when there are none the whole heap is available again. */
  ghost predicate Inv(s: Bump) {
    && s.heapStart <= s.next <= s.heapEnd < W64
    && s.allocations == |s.live| < W64
    && (s.live == [] ==> s.next == s.heapStart)
    && (forall i | 0 <= i < |s.live| :: BlockOk(s, s.live[i]))
    && forall i, j | 0 <= i < j < |s.live| :: s.live[i].End() <= s.live[j].start
  }

  ghost predicate BlockOk(s: Bump, b: Block) {
    && b.layout.Valid() && b.start % b.layout.align == 0
    && s.heapStart <= b.start && b.End() <= s.next
  }

  /** Allocation succeeds exactly when the block fits at the least aligned address that is not
      below `next`, and panics exactly when computing that address overflows, or the counter
      would for a block that fits. */
  lemma AllocOutcome(s: Bump, layout: Layout)
    requires Inv(s) && layout.Valid()
    ensures s.next + layout.align >= W64 ==> AllocStep(s, layout).1.Panicked?
    ensures s.next + layout.align < W64 ==>
              exists start: nat | IsLeastMultiple(start, s.next, layout.align) ::
                AllocStep(s, layout).1 ==
                if start + layout.size > s.heapEnd then Returned(None)
                else if s.allocations == W64 - 1 then Panicked
                else Returned(Some(start))
  {
    AlignUpIsLeastMultiple(s.next, layout.align);
    if s.next + layout.align < W64 {
      assert IsLeastMultiple(AlignUp(s.next, layout.align).value, s.next, layout.align);
    }
  }

  /** A fresh heap of `size` bytes at `start`: a block is placed at the least aligned address from
      `start` on, exactly if it ends within the heap and below the top of the address space. */
  lemma FreshOutcome(start: nat, size: nat, layout: Layout)
    requires start < W64 && layout.Valid()
    ensures start + layout.align >= W64 ==> AllocStep(Init(start, size), layout).1.Panicked?
    ensures start + layout.align < W64 ==>
              exists p: nat | IsLeastMultiple(p, start, layout.align) ::
                AllocStep(Init(start, size), layout).1 ==
                Returned(if p + layout.size <= start + size && p + layout.size < W64 then Some(p) else None)
  {
    AllocOutcome(Init(start, size), layout);
  }

  /** What the client gets is a pointer to the new live block, and what is used of the heap ends
      with it; without a pointer nothing has changed. */
  lemma AllocAnswer(s: Bump, layout: Layout)
    requires layout.Valid()
    ensures var (s', r) := AllocStep(s, layout);
            if r.Returned? && r.value.Some?
            then s'.live == s.live + [Block(r.value.value, layout)] && s'.next == s'.live[|s.live|].End()
                 && s'.heapStart == s.heapStart && s'.heapEnd == s.heapEnd
            else s' == s
  {
  }

  /** Freeing removes one block, and gives memory back only with the last one. */
  lemma FreeOutcome(s: Bump, i: nat)
    requires Inv(s) && i < |s.live|
    ensures FreeStep(s, i).live == Remove(s.live, i)
    ensures FreeStep(s, i).next == if |s.live| == 1 then s.heapStart else s.next
  {
  }

  lemma AllocKeepsInv(s: Bump, layout: Layout)
    requires Inv(s) && layout.Valid()
    ensures Inv(AllocStep(s, layout).0)
  {
    var s' := AllocStep(s, layout).0;
    if s' != s {
      AlignUpIsLeastMultiple(s.next, layout.align);
      forall i | 0 <= i < |s'.live|
        ensures BlockOk(s', s'.live[i])
      {
        if i < |s.live| { assert BlockOk(s, s.live[i]); }
      }
    }
  }

  lemma FreeKeepsInv(s: Bump, i: nat)
    requires Inv(s) && i < |s.live|
    ensures Inv(FreeStep(s, i))
  {
    var s' := FreeStep(s, i);
    forall k | 0 <= k < |s'.live|
      ensures s'.live[k] == s.live[if k < i then k else k + 1] && BlockOk(s', s'.live[k])
    {
      assert BlockOk(s, s.live[if k < i then k else k + 1]);
    }
  }

  datatype Op = Alloc(layout: Layout) | Free(index: nat)

  ghost predicate Legal(s: Bump, op: Op) {
    match op
    case Alloc(layout) => layout.Valid()
    case Free(i) => i < |s.live| && s.allocations > 0
  }

  function Step(s: Bump, op: Op): Bump
    requires Legal(s, op)
  {
    match op
    case Alloc(layout) => AllocStep(s, layout).0
    case Free(i) => FreeStep(s, i)
  }

  ghost predicate LegalRun(s: Bump, ops: seq<Op>)
    decreases |ops|
  {
    ops != [] ==> Legal(s, ops[0]) && LegalRun(Step(s, ops[0]), ops[1..])
  }

  ghost function Run(s: Bump, ops: seq<Op>): Bump
    requires LegalRun(s, ops)
    decreases |ops|
  {
    if ops == [] then s else Run(Step(s, ops[0]), ops[1..])
  }

  lemma {:induction false} RunKeepsInv(s: Bump, ops: seq<Op>)
    requires Inv(s) && LegalRun(s, ops)
    ensures Inv(Run(s, ops))
    ensures Run(s, ops).heapStart == s.heapStart && Run(s, ops).heapEnd == s.heapEnd
    decreases |ops|
  {
    if ops == [] {
    } else {
      match ops[0] {
        case Alloc(layout) => AllocKeepsInv(s, layout);
        case Free(i) => FreeKeepsInv(s, i);
      }
      RunKeepsInv(Step(s, ops[0]), ops[1..]);
    }
  }

  /** Over every run from a fresh heap of `size` bytes at `start`: live blocks are disjoint, aligned,
      and inside the used part of the heap; and once everything is freed the allocator is as good as new. */
  lemma RunIsSafe(start: nat, size: nat, ops: seq<Op>)
    requires start < W64 && LegalRun(Init(start, size), ops)
    ensures var s := Run(Init(start, size), ops);
            && (forall i, j | 0 <= i < |s.live| && 0 <= j < |s.live| && i != j ::
                  s.live[i].End() <= s.live[j].start || s.live[j].End() <= s.live[i].start)
            && (forall b | b in s.live ::
                  && b.layout.Valid() && b.start % b.layout.align == 0
                  && start <= b.start && b.End() <= s.next <= start + size && b.End() < W64)
            && s.allocations == |s.live|
            && (s.live == [] ==> s == Init(start, size))
  {
    RunKeepsInv(Init(start, size), ops);
    var s := Run(Init(start, size), ops);
    forall b | b in s.live
      ensures && b.layout.Valid() && b.start % b.layout.align == 0
              && start <= b.start && b.End() <= s.next <= start + size && b.End() < W64
    {
      assert BlockOk(s, b);
    }
  }

  class BumpAllocator {
    var heapStart: nat
    var heapEnd: nat
    var next: nat
    var allocations: nat
    ghost var live: seq<Block>

    ghost function State(): Bump
      reads this
    {
      Bump(heapStart, heapEnd, next, allocations, live)
    }

    constructor ()
      ensures State() == Bump(0, 0, 0, 0, [])
    {
      heapStart, heapEnd, next, allocations, live := 0, 0, 0, 0, [];
    }

    /** `init`: to be called once, on a new allocator. */
    method Initialize(start: nat, size: nat)
      requires start < W64 && State() == Bump(0, 0, 0, 0, [])
      modifies this
      ensures State() == Init(start, size) && Inv(State())
      ensures heapStart == next == start && live == [] && allocations == 0
      ensures heapEnd == if start + size >= W64 then W64 - 1 else start + size
    {
      heapStart := start;
      heapEnd := if start + size >= W64 then W64 - 1 else start + size; // saturating_add
      next := start;
    }

    method Alloc(layout: Layout) returns (r: Outcome<Option<nat>>)
      requires Inv(State()) && layout.Valid()
      modifies this
      ensures Inv(State()) && State() == AllocStep(old(State()), layout).0
      ensures r == AllocStep(old(State()), layout).1
      ensures live == if r.Returned? && r.value.Some? then old(live) + [Block(r.value.value, layout)] else old(live)
    {
      AllocKeepsInv(State(), layout);
      match AlignUp(next, layout.align) {
        case Panicked => return Panicked;
        case Returned(start) =>
          var end := start + layout.size;
          if end >= W64 {
            return Returned(None);
          }
          if end > heapEnd {
            return Returned(None);
          }
          if allocations + 1 >= W64 {
            return Panicked;
          }
          next := end;
          allocations := allocations + 1;
          live := live + [Block(start, layout)];
          return Returned(Some(start));
      }
    }

    /** The caller returns live block `i`.  The counter never goes below zero. */
    method Dealloc(ghost i: nat)
      requires Inv(State()) && i < |live|
      modifies this
      ensures Inv(State()) && State() == FreeStep(old(State()), i)
    {
      FreeKeepsInv(State(), i);
      allocations := allocations - 1;
      if allocations == 0 {
        next := heapStart;
      }
      live := Remove(live, i);
    }
  }
}
