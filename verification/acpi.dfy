// kernel/src/acpi.rs: finding and mapping the PCIe configuration window (ECAM).
module Acpi {
  import opened Wrappers
  import opened Bits
  import opened Frames
  import opened Pages
  import Pci

  datatype McfgEntry = McfgEntry(base: nat, segment: nat, startBus: nat, endBus: nat)

  /** The first entry for segment group 0. */
  method ChooseEntry(entries: seq<McfgEntry>) returns (r: Option<McfgEntry>)
    ensures r.None? ==> forall e | e in entries :: e.segment != 0
    ensures r.Some? ==> exists i | 0 <= i < |entries| ::
              entries[i] == r.value && r.value.segment == 0 && forall j | 0 <= j < i :: entries[j].segment != 0
  {
    for i := 0 to |entries|
      invariant forall j | 0 <= j < i :: entries[j].segment != 0
    {
      if entries[i].segment == 0 {
        return Some(entries[i]);
      }
    }
    return None;
  }

  /** The size of the window of an entry: one megabyte for each bus. */
  function EcamSize(e: McfgEntry): nat {
    Shl((if e.endBus >= e.startBus then e.endBus - e.startBus else 0) + 1, 20)
  }

  /** For an entry from bus 0 the window ends exactly with the last register of the last bus; in
      general it has a megabyte for each bus of the entry. */
  lemma WindowEndsWithLastRegister(e: McfgEntry)
    requires e.startBus <= e.endBus
    ensures EcamSize(e) == 0x10_0000 * (e.endBus - e.startBus + 1)
    ensures e.startBus == 0 ==> Pci.EcamAddress(e.base, e.endBus, 31, 7, 4095) + 1 == e.base + EcamSize(e)
  {
    Words();
    ShlIsProduct(e.endBus - e.startBus + 1, 20);
    Pci.EcamSum(e.base, e.endBus, 31, 7, 4095);
  }

  /** An entry that ends before it starts still gets one megabyte. */
  lemma BackwardsEntry(e: McfgEntry)
    requires e.endBus < e.startBus
    ensures EcamSize(e) == 0x10_0000
  {
    Words();
    ShlIsProduct(1, 20);
  }

  /** `Translate::translate_addr` */
  ghost function Translate(pageMap: map<nat, Mapping>, virt: nat): Option<nat> {
    if FrameOf(virt) in pageMap then Some(pageMap[FrameOf(virt)].frame + virt % PAGE) else None
  }

  /** The address `a` is seen at its own address plus `pmo`. */
  ghost predicate SeenAt(pageMap: map<nat, Mapping>, a: nat, pmo: nat) {
    Translate(pageMap, a + pmo) == Some(a)
  }

  /** So is every address of [phys, phys + size). */
  ghost predicate WindowMapped(pageMap: map<nat, Mapping>, phys: nat, size: nat, pmo: nat) {
    forall a: nat | phys <= a < phys + size :: SeenAt(pageMap, a, pmo)
  }

  /** How many frames the bytes [phys, phys + size) lie in. */
  function FrameCount(phys: nat, size: nat): nat
    requires size > 0
  {
    (FrameOf(phys + size - 1) - FrameOf(phys)) / PAGE + 1
  }

  /** `map_ecam_region`.  If nothing is mapped at the start of the window, it succeeds only when
      the whole window is mapped; if something is, it maps nothing.  Whatever happens, mappings
      from before stay, and new ones are in the window and for the kernel only. */
  method MapEcamRegion(m: Paging, phys: nat, size: nat, pmo: nat) returns (r: Option<nat>)
    requires m.Valid() && size > 0 && pmo % PAGE == 0
    modifies m`owners, m`pageMap, m.frames
    ensures m.Valid()
    ensures r.Some? ==> r.value == phys + pmo
    ensures Translate(old(m.pageMap), phys + pmo).Some? ==>
              && m.pageMap == old(m.pageMap)
              && (r.Some? <==> Translate(old(m.pageMap), phys + pmo) == Some(FrameOf(phys)))
    ensures MappingsKept(old(m.pageMap), m.pageMap)
    ensures forall p: nat | p in m.pageMap && p !in old(m.pageMap) ::
              InRange(p, FrameOf(phys + pmo), FrameCount(phys, size)) && !m.pageMap[p].user
    ensures Translate(old(m.pageMap), phys + pmo).None? && r.Some? ==> WindowMapped(m.pageMap, phys, size, pmo)
    ensures Translate(old(m.pageMap), phys + pmo).None? && r.None? ==>
              m.OutOfFrames() || m.Blocked(old(m.pageMap), FrameOf(phys + pmo), FrameCount(phys, size))
  {
    var startFrame := FrameOf(phys);
    var virtBase := phys + pmo;
    if FrameOf(virtBase) in m.pageMap {
      var mappedPhys := m.pageMap[FrameOf(virtBase)].frame + virtBase % PAGE;
      return if mappedPhys == startFrame then Some(virtBase) else None;
    }
    PageOfVirt(phys, pmo);
    var ok := MapFrames(m, FrameOf(virtBase), startFrame, FrameCount(phys, size), pmo);
    if !ok {
      return None;
    }
    WindowFromFrames(m.pageMap, phys, size, pmo);
    return Some(virtBase);
  }

  /** The loop of `map_ecam_region`. */
  method MapFrames(m: Paging, startPage: nat, startFrame: nat, frameCount: nat, pmo: nat) returns (ok: bool)
    requires m.Valid() && startPage == startFrame + pmo && IsPage(startPage) && IsPage(startFrame)
    modifies m`owners, m`pageMap, m.frames
    ensures m.Valid()
    ensures MappingsKept(old(m.pageMap), m.pageMap)
    ensures forall p: nat | p in m.pageMap && p !in old(m.pageMap) ::
              InRange(p, startPage, frameCount) && !m.pageMap[p].user
    ensures ok ==> FramesMapped(m.pageMap, startFrame, frameCount, pmo)
    ensures !ok ==> m.OutOfFrames() || m.Blocked(old(m.pageMap), startPage, frameCount)
  {
    var currentFrame := startFrame;
    var currentPage := startPage;
    for i := 0 to frameCount
      invariant m.Valid()
      invariant currentFrame == startFrame + i * PAGE && currentPage == currentFrame + pmo
      invariant IsPage(currentPage) && IsPage(currentFrame)
      invariant FramesMapped(m.pageMap, startFrame, i, pmo)
      invariant MappingsKept(old(m.pageMap), m.pageMap)
      invariant forall p: nat | p in m.pageMap ::
                  p in old(m.pageMap) || (InRange(p, startPage, i) && !m.pageMap[p].user)
    {
      OneMore(currentPage, startPage, i);
      InRangeOfMore(currentPage, startPage, i, frameCount);
      FewerPages(startPage, i, frameCount);
      ghost var before := m.pageMap;
      var mapped := m.MapTo(currentPage, currentFrame, false);
      if mapped.Err? {
        return false;
      }
      MappedKeeps(before, m.pageMap, startFrame, i, pmo);
      currentPage := currentPage + PAGE;
      currentFrame := currentFrame + PAGE;
    }
    return true;
  }

  ghost predicate IsPage(a: nat) { a % PAGE == 0 }

  ghost predicate MappedAt(pageMap: map<nat, Mapping>, frame: nat, pmo: nat) {
    frame + pmo in pageMap && pageMap[frame + pmo].frame == frame
  }

  ghost predicate FramesMapped(pageMap: map<nat, Mapping>, startFrame: nat, frameCount: nat, pmo: nat) {
    forall k: nat | k < frameCount :: MappedAt(pageMap, startFrame + k * PAGE, pmo)
  }

  /** Every page mapped before is still mapped as it was. */
  ghost predicate MappingsKept(before: map<nat, Mapping>, after: map<nat, Mapping>) {
    forall p | p in before :: p in after && after[p] == before[p]
  }

  lemma MappedKeeps(before: map<nat, Mapping>, after: map<nat, Mapping>, startFrame: nat, n: nat, pmo: nat)
    requires FramesMapped(before, startFrame, n, pmo) && MappingsKept(before, after)
    requires MappedAt(after, startFrame + n * PAGE, pmo)
    ensures FramesMapped(after, startFrame, n + 1, pmo)
  {
    forall k: nat | k < n + 1 ensures MappedAt(after, startFrame + k * PAGE, pmo) {
      if k < n { assert MappedAt(before, startFrame + k * PAGE, pmo); }
    }
  }

  lemma PageOfVirt(a: nat, pmo: nat)
    requires pmo % PAGE == 0
    ensures FrameOf(a + pmo) == FrameOf(a) + pmo && (a + pmo) % PAGE == a % PAGE
    ensures IsPage(FrameOf(a)) && IsPage(FrameOf(a + pmo)) && FrameOf(a) + a % PAGE == a
  {
  }

  /** Those frames are the ones that hold some byte of the window, and no others. */
  lemma FrameCountIsExact(phys: nat, size: nat, f: nat)
    requires size > 0
    ensures InRange(f, FrameOf(phys), FrameCount(phys, size)) <==> exists a: nat | phys <= a < phys + size :: FrameOf(a) == f
  {
    var last := phys + size - 1;
    if InRange(f, FrameOf(phys), FrameCount(phys, size)) {
      var a := Max(f, phys);
      FrameInWindow(phys, last, f);
      assert phys <= a < phys + size && FrameOf(a) == f;
    }
    if a: nat :| phys <= a < phys + size && FrameOf(a) == f {
      var k := FrameIndex(phys, a, last);
      OneMore(f, FrameOf(phys), k);
      InRangeOfMore(f, FrameOf(phys), k, FrameCount(phys, size));
    }
  }

  lemma FrameInWindow(first: nat, last: nat, f: nat)
    requires first <= last && InRange(f, FrameOf(first), (FrameOf(last) - FrameOf(first)) / PAGE + 1)
    ensures FrameOf(Max(f, first)) == f && Max(f, first) <= last
  {
    var k := last / PAGE - first / PAGE;
    assert FrameOf(last) == FrameOf(first) + k * PAGE;
    assert FrameOf(first) <= f <= FrameOf(last) && f % PAGE == 0;
  }

  lemma AddressFromFrame(pageMap: map<nat, Mapping>, a: nat, pmo: nat)
    requires MappedAt(pageMap, FrameOf(a), pmo) && pmo % PAGE == 0
    ensures SeenAt(pageMap, a, pmo)
  {
    PageOfVirt(a, pmo);
  }

  /** The index of the frame of `a`, counted from the frame of `first`. */
  lemma FrameIndex(first: nat, a: nat, last: nat) returns (k: nat)
    requires first <= a <= last
    ensures FrameOf(a) == FrameOf(first) + k * PAGE && k < (FrameOf(last) - FrameOf(first)) / PAGE + 1
  {
    k := a / PAGE - first / PAGE;
    assert FrameOf(last) - FrameOf(first) == (last / PAGE - first / PAGE) * PAGE;
  }

  /** The pages of the frames from the first to the last byte are the whole window. */
  lemma WindowFromFrames(pageMap: map<nat, Mapping>, phys: nat, size: nat, pmo: nat)
    requires size > 0 && pmo % PAGE == 0
    requires FramesMapped(pageMap, FrameOf(phys), FrameCount(phys, size), pmo)
    ensures WindowMapped(pageMap, phys, size, pmo)
  {
    forall a: nat | phys <= a < phys + size
      ensures SeenAt(pageMap, a, pmo)
    {
      var k := FrameIndex(phys, a, phys + size - 1);
      assert MappedAt(pageMap, FrameOf(phys) + k * PAGE, pmo);
      AddressFromFrame(pageMap, a, pmo);
    }
  }

  /** With the window of a whole entry mapped, every register of every function on the buses up to
      the last one is seen through the ECAM base. */
  lemma RegistersAreMapped(pageMap: map<nat, Mapping>, e: McfgEntry, pmo: nat, bus: nat, slot: nat, func: nat, offset: nat)
    requires WindowMapped(pageMap, e.base, EcamSize(e), pmo) && e.startBus == 0
    requires bus <= e.endBus && slot < 32 && func < 8 && offset < 4096
    ensures Translate(pageMap, Pci.EcamAddress(e.base + pmo, bus, slot, func, offset))
            == Some(Pci.EcamAddress(e.base, bus, slot, func, offset))
  {
    var a := Pci.EcamAddress(e.base, bus, slot, func, offset);
    Pci.EcamWindow(e.base, e.endBus, bus, slot, func, offset);
    assert SeenAt(pageMap, a, pmo);
    assert Pci.EcamAddress(e.base + pmo, bus, slot, func, offset) == a + pmo;
  }

  /** An entry for bus 1 alone: even its first register is outside. */
  lemma BusOneIsOutside(base: nat)
    ensures Pci.EcamAddress(base, 1, 0, 0, 0) >= base + EcamSize(McfgEntry(base, 0, 1, 1))
  {
    Pci.EcamSum(base, 1, 0, 0, 0);
    Words();
    ShlIsProduct(1, 20);
  }

  /** Accesses are computed from bus 0, the window is sized from the first bus: all accesses to the
      buses of an entry stay in its window exactly when the entry starts at bus 0. */
  lemma AccessesStayInWindowIff(e: McfgEntry)
    requires e.startBus <= e.endBus
    ensures (forall bus: nat | e.startBus <= bus <= e.endBus ::
               Pci.EcamAddress(e.base, bus, 0, 0, 0) < e.base + EcamSize(e)) <==> e.startBus == 0
  {
    forall bus: nat
      ensures Pci.EcamAddress(e.base, bus, 0, 0, 0) < e.base + EcamSize(e) <==> bus <= e.endBus - e.startBus
    {
      Pci.EcamSum(e.base, bus, 0, 0, 0);
      Words();
      ShlIsProduct(e.endBus - e.startBus + 1, 20);
    }
    if e.startBus > 0 {
      assert Pci.EcamAddress(e.base, e.endBus, 0, 0, 0) >= e.base + EcamSize(e);
    }
  }
}
