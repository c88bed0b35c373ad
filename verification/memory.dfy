// kernel/src/memory.rs: the frame allocator over the boot loader's memory map.
module Frames {
  import opened Wrappers

  const PAGE := 4096

  datatype MemoryRegion = MemoryRegion(start: nat, end: nat, usable: bool)

  /** `(start..end).step_by(4096)` */
  function StepBy(start: nat, end: nat): seq<nat>
    decreases end - start
  {
    if start >= end then [] else [start] + StepBy(start + PAGE, end)
  }

  /** `PhysFrame::containing_address` */
  function FrameOf(a: nat): nat { a - a % PAGE }

  function FramesOf(addresses: seq<nat>): seq<nat> {
    seq(|addresses|, i requires 0 <= i < |addresses| => FrameOf(addresses[i]))
  }

  /** `usable_frames`: filter, step, and map to frames. */
  function UsableFrames(regions: seq<MemoryRegion>): seq<nat> {
    if regions == [] then []
    else
      (if regions[0].usable then FramesOf(StepBy(regions[0].start, regions[0].end)) else [])
      + UsableFrames(regions[1..])
  }

  /** What the boot loader promises about its memory map. */
  ghost predicate WellFormed(regions: seq<MemoryRegion>) {
    && (forall r | r in regions :: r.start % PAGE == 0 && r.end % PAGE == 0)
    && (forall i, j | 0 <= i < j < |regions| :: Disjoint(regions[i], regions[j]))
  }

  ghost predicate Disjoint(r: MemoryRegion, q: MemoryRegion) {
    r.end <= q.start || q.end <= r.start || r.end <= r.start || q.end <= q.start
  }

  /** `f` is a frame of a usable region. */
  ghost predicate IsUsable(regions: seq<MemoryRegion>, f: nat) {
    f % PAGE == 0 && exists r :: r in regions && r.usable && r.start <= f < r.end
  }

  lemma {:induction false} StepByMeaning(start: nat, end: nat)
    requires start % PAGE == 0 && end % PAGE == 0
    ensures var s := FramesOf(StepBy(start, end));
            && (forall f :: f in s <==> f % PAGE == 0 && start <= f < end)
            && NoRepeats(s)
    decreases end - start
  {
    var s := FramesOf(StepBy(start, end));
    if start >= end {
    } else {
      StepByMeaning(start + PAGE, end);
      var t := FramesOf(StepBy(start + PAGE, end));
      assert s == [start] + t;
      assert forall i | 0 < i < |s| :: s[i] == t[i - 1] && s[i] in t;
    }
  }

  /** The frames of a region that starts at a page: as many as begin in it, in ascending order. */
  lemma {:induction false} StepByOrder(start: nat, end: nat, k: nat)
    requires start % PAGE == 0
    ensures k < |StepBy(start, end)| <==> start + k * PAGE < end
    ensures k < |StepBy(start, end)| ==> FramesOf(StepBy(start, end))[k] == start + k * PAGE
    decreases k
  {
    if start >= end || k == 0 {
    } else {
      StepByOrder(start + PAGE, end, k - 1);
    }
  }

  lemma FramesOfRegion(r: MemoryRegion, k: nat)
    requires r.start % PAGE == 0
    ensures k < |UsableFrames([r])| <==> r.usable && r.start + k * PAGE < r.end
    ensures k < |UsableFrames([r])| ==> UsableFrames([r])[k] == r.start + k * PAGE
  {
    assert [r][1..] == [];
    assert UsableFrames([r]) == if r.usable then FramesOf(StepBy(r.start, r.end)) else [];
    StepByOrder(r.start, r.end, k);
  }

  /** The regions contribute in the order of the memory map. */
  lemma {:induction false} FramesInMapOrder(regions: seq<MemoryRegion>, more: seq<MemoryRegion>)
    ensures UsableFrames(regions + more) == UsableFrames(regions) + UsableFrames(more)
    decreases |regions|
  {
    if regions == [] {
      assert regions + more == more;
    } else {
      assert (regions + more)[1..] == regions[1..] + more;
      FramesInMapOrder(regions[1..], more);
    }
  }

  /** The list holds every frame of every usable region, exactly once, and nothing else. */
  lemma {:induction false} UsableFramesMeaning(regions: seq<MemoryRegion>)
    requires WellFormed(regions)
    ensures NoRepeats(UsableFrames(regions))
    ensures forall f :: f in UsableFrames(regions) <==> IsUsable(regions, f)
    decreases |regions|
  {
    if regions == [] {
    } else {
      var r, rest := regions[0], regions[1..];
      assert r in regions && regions == [r] + rest;
      assert forall q | q in rest :: q in regions;
      UsableFramesMeaning(rest);
      StepByMeaning(r.start, r.end);
      var s := if r.usable then FramesOf(StepBy(r.start, r.end)) else [];
      var t := UsableFrames(rest);
      forall f
        ensures f in UsableFrames(regions) <==> IsUsable(regions, f)
      {
        assert f in UsableFrames(regions) <==> f in s || f in t;
      }
      forall f | f in s
        ensures f !in t
      {
        NotInRest(regions, f);
      }
      NoRepeatsAppend(s, t);
    }
  }

  lemma NotInRest(regions: seq<MemoryRegion>, f: nat)
    requires WellFormed(regions) && regions != [] && regions[0].start <= f < regions[0].end
    ensures !IsUsable(regions[1..], f)
  {
    forall r | r in regions[1..] && r.usable
      ensures !(r.start <= f < r.end)
    {
      var j :| 0 <= j < |regions[1..]| && regions[1..][j] == r;
      assert Disjoint(regions[0], regions[j + 1]);
    }
  }

  lemma NoRepeatsAppend(s: seq<nat>, t: seq<nat>)
    requires NoRepeats(s) && NoRepeats(t) && forall f | f in s :: f !in t
    ensures NoRepeats(s + t)
  {
    var st := s + t;
    forall i, j | 0 <= i < j < |st|
      ensures st[i] != st[j]
    {
      if i < |s| <= j {
        assert s[i] in s && t[j - |s|] in t;
      }
    }
  }

  class BootInfoFrameAllocator {
    const memoryMap: seq<MemoryRegion>
    var next: nat

    ghost function Frames(): seq<nat> { UsableFrames(memoryMap) }

    constructor (memoryMap: seq<MemoryRegion>)
      ensures this.memoryMap == memoryMap && next == 0
    {
      this.memoryMap := memoryMap;
      next := 0;
    }

    /** The n-th call returns the n-th usable frame, and `None` from the end of the list on. */
    method AllocateFrame() returns (frame: Option<nat>)
      modifies this
      ensures next == old(next) + 1
      ensures frame == if old(next) < |Frames()| then Some(Frames()[old(next)]) else None
    {
      var frames := UsableFrames(memoryMap);
      frame := if next < |frames| then Some(frames[next]) else None;
      next := next + 1;
    }
  }

  /** Any number of calls: all usable frames, each once and in order, and then only `None`. */
  method AllocateMany(a: BootInfoFrameAllocator, count: nat) returns (frames: seq<Option<nat>>)
    requires a.next == 0 && WellFormed(a.memoryMap)
    modifies a
    ensures |frames| == count
    ensures forall i | 0 <= i < count :: frames[i].Some? <==> i < |a.Frames()|
    ensures forall i | 0 <= i < count && frames[i].Some? :: IsUsable(a.memoryMap, frames[i].value)
    ensures forall i, j | 0 <= i < j < count && frames[i].Some? && frames[j].Some? :: frames[i] != frames[j]
    ensures count >= |a.Frames()| ==> forall f: nat | IsUsable(a.memoryMap, f) :: Some(f) in frames
  {
    frames := [];
    ghost var all := a.Frames();
    UsableFramesMeaning(a.memoryMap);
    for n := 0 to count
      invariant a.next == n == |frames|
      invariant forall i | 0 <= i < n :: frames[i] == if i < |all| then Some(all[i]) else None
    {
      var frame := a.AllocateFrame();
      frames := frames + [frame];
    }
    forall i | 0 <= i < count && frames[i].Some?
      ensures IsUsable(a.memoryMap, frames[i].value)
    {
      assert all[i] in all;
    }
    if count >= |all| {
      forall f: nat | IsUsable(a.memoryMap, f)
        ensures Some(f) in frames
      {
        assert f in all;
        var i :| 0 <= i < |all| && all[i] == f;
        assert frames[i] == Some(f);
      }
    }
  }
}
