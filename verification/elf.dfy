// kernel/src/elf.rs: loading an executable.  Parsing is not part of this model: the parsed
// headers are a parameter.
module Elf {
  import opened Wrappers
  import opened Bits
  import opened Frames
  import opened Pages

  const PT_LOAD := 1

  /** A program header, as it comes from the file: nothing is known about its fields. */
  datatype Phdr = Phdr(ptype: nat, vaddr: nat, memsz: nat, offset: nat, filesz: nat) {
    predicate Loads() { ptype == PT_LOAD }

    predicate Covers(v: nat) { Loads() && vaddr <= v < vaddr + memsz }
  }

  datatype Parsed = Parsed(entry: nat, phdrs: seq<Phdr>)

  datatype InitError = AllocationError | InvalidElf

  // ---- How much memory ----

  /** The sizing loop, without overflow. */
  function Required(sz: nat, phdrs: seq<Phdr>): nat
    decreases |phdrs|
  {
    if phdrs == [] then sz
    else if !phdrs[0].Loads() then Required(sz, phdrs[1..])
    else Required((if sz < phdrs[0].vaddr then sz + phdrs[0].vaddr else sz) + phdrs[0].memsz, phdrs[1..])
  }

  lemma {:induction false} RequiredGrows(sz: nat, phdrs: seq<Phdr>)
    ensures sz <= Required(sz, phdrs)
    decreases |phdrs|
  {
    if phdrs != [] && phdrs[0].Loads() {
      RequiredGrows((if sz < phdrs[0].vaddr then sz + phdrs[0].vaddr else sz) + phdrs[0].memsz, phdrs[1..]);
    } else if phdrs != [] {
      RequiredGrows(sz, phdrs[1..]);
    }
  }

  /** Every loadable segment ends within the computed size, in whatever order they come. */
  lemma {:induction false} RequiredCoversAll(sz: nat, phdrs: seq<Phdr>, i: nat)
    requires i < |phdrs| && phdrs[i].Loads()
    ensures phdrs[i].vaddr + phdrs[i].memsz <= Required(sz, phdrs)
    decreases |phdrs|
  {
    var sz' := if !phdrs[0].Loads() then sz
               else (if sz < phdrs[0].vaddr then sz + phdrs[0].vaddr else sz) + phdrs[0].memsz;
    if i == 0 {
      RequiredGrows(sz', phdrs[1..]);
    } else {
      assert phdrs[1..][i - 1] == phdrs[i];
      RequiredCoversAll(sz', phdrs[1..], i - 1);
    }
  }

  function MemTotal(phdrs: seq<Phdr>): nat {
    if phdrs == [] then 0 else (if phdrs[0].Loads() then phdrs[0].memsz else 0) + MemTotal(phdrs[1..])
  }

  function AddressTotal(phdrs: seq<Phdr>): nat {
    if phdrs == [] then 0 else (if phdrs[0].Loads() then phdrs[0].vaddr else 0) + AddressTotal(phdrs[1..])
  }

  /** The size is at least what the segments take, and more only by addresses that were skipped. */
  lemma {:induction false} RequiredBounds(sz: nat, phdrs: seq<Phdr>)
    ensures sz + MemTotal(phdrs) <= Required(sz, phdrs) <= sz + MemTotal(phdrs) + AddressTotal(phdrs)
    decreases |phdrs|
  {
    if phdrs == [] {
    } else if phdrs[0].Loads() {
      RequiredBounds((if sz < phdrs[0].vaddr then sz + phdrs[0].vaddr else sz) + phdrs[0].memsz, phdrs[1..]);
    } else {
      RequiredBounds(sz, phdrs[1..]);
    }
  }

  /** For segments that follow one another without a gap it is exactly where the last one ends. */
  lemma {:induction false} RequiredOfAdjacent(sz: nat, phdrs: seq<Phdr>)
    requires phdrs != [] && (sz == 0 || sz == phdrs[0].vaddr)
    requires forall i | 0 <= i < |phdrs| :: phdrs[i].Loads()
    requires forall i | 0 < i < |phdrs| :: phdrs[i].vaddr == phdrs[i - 1].vaddr + phdrs[i - 1].memsz
    ensures var last := phdrs[|phdrs| - 1]; Required(sz, phdrs) == last.vaddr + last.memsz
    decreases |phdrs|
  {
    var rest := phdrs[1..];
    if rest == [] {
    } else {
      assert forall i | 0 <= i < |rest| :: rest[i] == phdrs[i + 1];
      assert rest[0].vaddr == phdrs[0].vaddr + phdrs[0].memsz;
      RequiredOfAdjacent(phdrs[0].vaddr + phdrs[0].memsz, rest);
    }
  }

  /** The sizing loop: panics exactly when the size does not fit 64 bits. */
  method SizeSegments(phdrs: seq<Phdr>) returns (r: Outcome<nat>)
    ensures r == if Required(0, phdrs) < W64 then Returned(Required(0, phdrs)) else Panicked
  {
    var reqSz: nat := 0;
    assert phdrs[0..] == phdrs;
    for i := 0 to |phdrs|
      invariant reqSz < W64 && Required(reqSz, phdrs[i..]) == Required(0, phdrs)
    {
      var phdr := phdrs[i];
      assert phdrs[i..][0] == phdr && phdrs[i..][1..] == phdrs[i + 1..];
      if !phdr.Loads() {
        continue;
      }
      var sz := reqSz;
      if sz < phdr.vaddr {
        sz := sz + phdr.vaddr;
      }
      sz := sz + phdr.memsz;
      RequiredGrows(sz, phdrs[i + 1..]);
      if sz >= W64 {
        return Panicked;
      }
      reqSz := sz;
    }
    return Returned(reqSz);
  }

  // ---- What ends up in memory ----

  /** The file bytes that a segment refers to are in the file. */
  predicate InFile(phdr: Phdr, data: seq<Byte>) { phdr.offset + phdr.filesz <= |data| }

  /** File bytes first, then zeros. */
  function SegmentByte(phdr: Phdr, data: seq<Byte>, v: nat): Byte
    requires InFile(phdr, data) && phdr.Covers(v)
  {
    if v - phdr.vaddr < phdr.filesz then data[phdr.offset + (v - phdr.vaddr)] else 0
  }

  ghost predicate AllInFile(phdrs: seq<Phdr>, data: seq<Byte>) {
    forall p | p in phdrs && p.Loads() :: InFile(p, data)
  }

  /** Every slice of the file is in range, and computing its end does not overflow. */
  ghost predicate FitsFile(phdrs: seq<Phdr>, data: seq<Byte>) {
    AllInFile(phdrs, data) && forall p | p in phdrs && p.Loads() :: p.offset + p.filesz < W64
  }

  /** The last segment that covers an address decides what is there. */
  ghost function Image(phdrs: seq<Phdr>, data: seq<Byte>, v: nat): Option<Byte>
    requires AllInFile(phdrs, data)
    decreases |phdrs|
  {
    if phdrs == [] then None
    else
      var last := phdrs[|phdrs| - 1];
      if last.Covers(v) then Some(SegmentByte(last, data, v)) else Image(phdrs[..|phdrs| - 1], data, v)
  }

  /** What no segment covers is not part of the image; where several overlap, the last one wins:
      first its file bytes, then zeros. */
  lemma {:induction false} LastSegmentWins(phdrs: seq<Phdr>, data: seq<Byte>, i: nat, v: nat)
    requires AllInFile(phdrs, data) && i <= |phdrs|
    requires forall j | i < j < |phdrs| :: !phdrs[j].Covers(v)
    ensures i < |phdrs| && phdrs[i].Covers(v) ==>
              var p := phdrs[i];
              && p.offset + p.filesz <= |data|
              && Image(phdrs, data, v) == Some(if v - p.vaddr < p.filesz then data[p.offset + (v - p.vaddr)] else 0)
    ensures Image(phdrs, data, v).Some? <==> exists j | 0 <= j < |phdrs| :: phdrs[j].Covers(v)
    decreases |phdrs|
  {
    if phdrs == [] {
    } else {
      var front := phdrs[..|phdrs| - 1];
      assert forall p | p in front :: p in phdrs;
      LastSegmentWins(front, data, if i < |front| then i else |front|, v);
      assert forall j | 0 <= j < |front| :: front[j] == phdrs[j];
      assert phdrs[|phdrs| - 1] in phdrs;
    }
  }

  /** If no two segments overlap, every segment is there in full. */
  lemma DisjointSegmentsAreComplete(phdrs: seq<Phdr>, data: seq<Byte>, i: nat, v: nat)
    requires AllInFile(phdrs, data) && i < |phdrs| && phdrs[i].Covers(v)
    requires forall j | 0 <= j < |phdrs| && j != i :: !phdrs[j].Covers(v)
    ensures var p := phdrs[i];
            && p.offset + p.filesz <= |data|
            && Image(phdrs, data, v) == Some(if v - p.vaddr < p.filesz then data[p.offset + (v - p.vaddr)] else 0)
  {
    LastSegmentWins(phdrs, data, i, v);
  }

  /** What is covered at all lies below the computed size. */
  lemma {:induction false} ImageIsBounded(phdrs: seq<Phdr>, all: seq<Phdr>, data: seq<Byte>, v: nat)
    requires AllInFile(phdrs, data) && phdrs <= all && Image(phdrs, data, v).Some?
    ensures v < Required(0, all)
    decreases |phdrs|
  {
    var n := |phdrs| - 1;
    if phdrs[n].Covers(v) {
      RequiredCoversAll(0, all, n);
    } else {
      ImageIsBounded(phdrs[..n], all, data, v);
    }
  }

  /** Byte-addressed memory, as far as it has been written. */
  class Ram {
    var bytes: map<nat, Byte>

    constructor ()
      ensures bytes == map[]
    {
      bytes := map[];
    }

    /** `copy_from_slice` and `fill` */
    method Store(addr: nat, s: seq<Byte>)
      modifies this
      ensures forall a: nat ::
                a in bytes <==> a in old(bytes) || addr <= a < addr + |s|
      ensures forall a: nat | a in bytes ::
                bytes[a] == if addr <= a < addr + |s| then s[a - addr] else old(bytes)[a]
    {
      for i := 0 to |s|
        invariant forall a: nat :: a in bytes <==> a in old(bytes) || addr <= a < addr + i
        invariant forall a: nat | a in bytes :: bytes[a] == if addr <= a < addr + i then s[a - addr] else old(bytes)[a]
      {
        bytes := bytes[addr + i := s[i]];
      }
    }
  }

  /** What memory holds at base + v. */
  ghost predicate Holds(now: map<nat, Byte>, before: map<nat, Byte>, base: nat, v: nat, b: Option<Byte>) {
    match b
    case Some(byte) => base + v in now && now[base + v] == byte
    case None => (base + v in now <==> base + v in before)
                 && (base + v in before ==> now[base + v] == before[base + v])
  }

  /** What memory holds at base + v after a segment was copied. */
  ghost predicate Copied(now: map<nat, Byte>, before: map<nat, Byte>, phdr: Phdr, data: seq<Byte>, base: nat, v: nat)
    requires InFile(phdr, data)
  {
    Holds(now, before, base, v, if phdr.Covers(v) then Some(SegmentByte(phdr, data, v)) else None)
  }

  /** Memory from the base on is the image, and nothing else has changed. */
  ghost predicate ImageLoaded(now: map<nat, Byte>, before: map<nat, Byte>, base: nat, phdrs: seq<Phdr>, data: seq<Byte>) {
    && AllInFile(phdrs, data)
    && (forall v: nat :: Holds(now, before, base, v, Image(phdrs, data, v)))
    && forall a: nat | a < base :: (a in now <==> a in before) && (a in now ==> now[a] == before[a])
  }

  /** The user page that holds the address is mapped. */
  ghost predicate UserMapped(pageMap: map<nat, Mapping>, a: nat) {
    FrameOf(a) in pageMap && pageMap[FrameOf(a)].user
  }

  ghost predicate ImageMapped(pageMap: map<nat, Mapping>, base: nat, phdrs: seq<Phdr>, data: seq<Byte>)
    requires AllInFile(phdrs, data)
  {
    forall v: nat | Image(phdrs, data, v).Some? :: UserMapped(pageMap, base + v)
  }

  lemma ImageIsMapped(before: map<nat, Mapping>, after: map<nat, Mapping>, base: nat, n: nat, phdrs: seq<Phdr>, data: seq<Byte>)
    requires Extends(before, after, base, n, true) && base % PAGE == 0
    requires Required(0, phdrs) <= n * PAGE && AllInFile(phdrs, data)
    ensures ImageMapped(after, base, phdrs, data)
  {
    forall v: nat | Image(phdrs, data, v).Some?
      ensures UserMapped(after, base + v)
    {
      ImageIsBounded(phdrs, phdrs, data, v);
      CoveredPage(base, v, n);
    }
  }

  class Process {
    const data: seq<Byte>
    var entrypoint: Option<nat>

    constructor (data: seq<Byte>)
      ensures this.data == data && entrypoint == None
    {
      this.data := data;
      entrypoint := None;
    }

    /** What a successful start leaves behind: the entry point is set, user pages are mapped from
        the base on, and memory there is the image. */
    ghost predicate Started(parsed: Parsed, mapBefore: map<nat, Mapping>, mapAfter: map<nat, Mapping>,
                            before: map<nat, Byte>, after: map<nat, Byte>)
      reads this
    {
      && entrypoint.Some? && entrypoint.value >= parsed.entry
      && var base := entrypoint.value - parsed.entry;
      && Extends(mapBefore, mapAfter, base, Max(PagesFor(Required(0, parsed.phdrs)), 2), true)
      && ImageLoaded(after, before, base, parsed.phdrs, data)
      && ImageMapped(mapAfter, base, parsed.phdrs, data)
    }

    /** `Process::init`.  Every byte it writes is in a user page that `alloc_user` has just mapped,
        and the image is what the segments say: later ones win, memory beyond the file part is
        zero, and nothing else is touched. */
    method Init(m: Paging, ram: Ram, parsed: Option<Parsed>) returns (r: Outcome<Result<InitError>>)
      requires m.Valid()
      modifies this, m, m.frames, ram
      ensures r == Returned(Err(InvalidElf)) <==> parsed.None?
      ensures r == Returned(Err(AllocationError)) <==> parsed.Some? && Required(0, parsed.value.phdrs) == 0
      ensures r.Returned? && r.value.Ok? ==>
                parsed.Some? && Started(parsed.value, old(m.pageMap), m.pageMap, old(ram.bytes), ram.bytes)
      ensures r.Panicked? ==>
                && parsed.Some?
                && var n, base := Max(PagesFor(Required(0, parsed.value.phdrs)), 2), old(m.nextVirtUser);
                || Required(0, parsed.value.phdrs) >= W64 || m.NoRoom(old(m.pageMap), base, n)
                || !FitsFile(parsed.value.phdrs, data) || parsed.value.entry + base >= W64
    {
      if parsed.None? {
        return Returned(Err(InvalidElf));
      }
      var reqSz := SizeSegments(parsed.value.phdrs);
      if reqSz.Panicked? {
        return Panicked;
      }
      r := AllocateAndLoad(m, ram, parsed.value, reqSz.value);
    }

    /** The rest of `init`, once the size is known. */
    method AllocateAndLoad(m: Paging, ram: Ram, parsed: Parsed, reqSz: nat) returns (r: Outcome<Result<InitError>>)
      requires m.Valid() && reqSz == Required(0, parsed.phdrs)
      modifies this, m, m.frames, ram
      ensures r == Returned(Err(AllocationError)) <==> reqSz == 0
      ensures r.Returned? ==> r.value == Err(AllocationError)
                              || (r.value.Ok? && Started(parsed, old(m.pageMap), m.pageMap, old(ram.bytes), ram.bytes))
      ensures r.Panicked? ==>
                || m.NoRoom(old(m.pageMap), old(m.nextVirtUser), Max(PagesFor(reqSz), 2))
                || !FitsFile(parsed.phdrs, data) || parsed.entry + old(m.nextVirtUser) >= W64
    {
      var space := m.Alloc(reqSz, true);
      if space.Panicked? {
        return Panicked;
      }
      if space.value.None? {
        return Returned(Err(AllocationError));
      }
      var userBase := space.value.value;
      var loaded := LoadSegments(ram, parsed.phdrs, userBase);
      if !loaded || parsed.entry + userBase >= W64 {
        return Panicked;
      }
      entrypoint := Some(parsed.entry + userBase);
      ImageIsMapped(old(m.pageMap), m.pageMap, userBase, Max(PagesFor(reqSz), 2), parsed.phdrs, data);
      return Returned(Ok);
    }

    /** The second loop over the headers; false if a slice of the file is out of range. */
    method LoadSegments(ram: Ram, phdrs: seq<Phdr>, base: nat) returns (ok: bool)
      modifies ram
      ensures ok <==> FitsFile(phdrs, data)
      ensures ok ==> ImageLoaded(ram.bytes, old(ram.bytes), base, phdrs, data)
      ensures forall a: nat | a < base ::
                (a in ram.bytes <==> a in old(ram.bytes)) && (a in ram.bytes ==> ram.bytes[a] == old(ram.bytes)[a])
    {
      for i := 0 to |phdrs|
        invariant FitsFile(phdrs[..i], data)
        invariant forall v: nat :: Holds(ram.bytes, old(ram.bytes), base, v, Image(phdrs[..i], data, v))
        invariant forall a: nat | a < base ::
                    (a in ram.bytes <==> a in old(ram.bytes)) && (a in ram.bytes ==> ram.bytes[a] == old(ram.bytes)[a])
      {
        var phdr := phdrs[i];
        assert phdrs[..i + 1] == phdrs[..i] + [phdr] && phdr in phdrs;
        assert phdrs[..i + 1][..i] == phdrs[..i];
        if !phdr.Loads() {
          continue;
        }
        if phdr.offset + phdr.filesz >= W64 || phdr.offset + phdr.filesz > |data| {
          return false;
        }
        ghost var before := ram.bytes;
        CopySegment(ram, phdr, base);
        ghost var sofar := phdrs[..i + 1];
        forall v: nat
          ensures Holds(ram.bytes, old(ram.bytes), base, v, Image(sofar, data, v))
        {
          assert Holds(before, old(ram.bytes), base, v, Image(phdrs[..i], data, v));
          assert Copied(ram.bytes, before, phdr, data, base, v);
          assert Image(sofar, data, v) ==
                 if phdr.Covers(v) then Some(SegmentByte(phdr, data, v)) else Image(phdrs[..i], data, v);
        }
      }
      assert phdrs[..|phdrs|] == phdrs;
      return true;
    }

    /** The file bytes of a segment are copied, what is left of it is filled with zeros. */
    method CopySegment(ram: Ram, phdr: Phdr, base: nat)
      requires phdr.Loads() && InFile(phdr, data)
      modifies ram
      ensures forall v: nat :: Copied(ram.bytes, old(ram.bytes), phdr, data, base, v)
      ensures forall a: nat | a < base ::
                (a in ram.bytes <==> a in old(ram.bytes)) && (a in ram.bytes ==> ram.bytes[a] == old(ram.bytes)[a])
    {
      var src := data[phdr.offset..phdr.offset + phdr.filesz];
      var copyLen := Min(|src|, phdr.memsz);
      ram.Store(base + phdr.vaddr, src[..copyLen]);
      if copyLen < phdr.memsz {
        ram.Store(base + phdr.vaddr + copyLen, seq(phdr.memsz - copyLen, k => 0));
      }
    }
  }

  lemma CoveredPage(base: nat, v: nat, n: nat)
    requires base % PAGE == 0 && v < n * PAGE
    ensures InRange(FrameOf(base + v), base, n)
  {
  }
}
