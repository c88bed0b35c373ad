// kernel/src/drivers/ustar.rs: the reader, in the shape of the source.
module UstarReader {
  import opened Wrappers
  import opened Bits
  import opened UstarModel

  const MAX_SLICE := 0x8000_0000_0000_0000 // a slice is shorter than this

  method Oct2Bin(octalBytes: Bytes) returns (result: nat)
    ensures result == Oct(0, octalBytes)
  {
    result := 0;
    assert octalBytes[0..] == octalBytes;
    for i := 0 to |octalBytes|
      invariant Oct(result, octalBytes[i..]) == Oct(0, octalBytes)
    {
      var byte := octalBytes[i];
      assert octalBytes[i..][0] == byte && octalBytes[i..][1..] == octalBytes[i + 1..];
      if !IsDigit(byte) {
        return;
      }
      result := result * 8 + (byte - 48);
    }
  }

  /** The bytes from `ptr` on; the pointer may have run past the end. */
  function From(data: Bytes, ptr: nat): Bytes {
    if ptr <= |data| then data[ptr..] else []
  }

  /** The fields of the header at `ptr`, read in place. */
  lemma Fields(data: Bytes, ptr: nat)
    requires ptr + BLOCK_SIZE <= |data|
    ensures var img := From(data, ptr);
            && |img| == |data| - ptr >= BLOCK_SIZE
            && (HasHeader(img) <==> data[ptr + SIGNATURE_OFFSET..ptr + SIGNATURE_OFFSET + 5] == USTAR)
            && SizeOf(img) == Oct(0, data[ptr + FILE_SIZE_OFFSET..ptr + FILE_SIZE_OFFSET + FILE_SIZE_LENGTH])
            && NameOf(img) == UpToNul(data[ptr..ptr + NAME_LENGTH])
            && SizeOf(img) < 0x4_0000_0000
  {
    var img := From(data, ptr);
    assert img[SIGNATURE_OFFSET..SIGNATURE_OFFSET + 5] == data[ptr + SIGNATURE_OFFSET..ptr + SIGNATURE_OFFSET + 5];
    assert img[FILE_SIZE_OFFSET..FILE_SIZE_OFFSET + FILE_SIZE_LENGTH]
        == data[ptr + FILE_SIZE_OFFSET..ptr + FILE_SIZE_OFFSET + FILE_SIZE_LENGTH];
    assert img[..NAME_LENGTH] == data[ptr..ptr + NAME_LENGTH];
    assert Pow8(0) == 1 && Pow8(FILE_SIZE_LENGTH) == 0x2_0000_0000;
    OctBound(0, img[FILE_SIZE_OFFSET..FILE_SIZE_OFFSET + FILE_SIZE_LENGTH], 0);
  }

  /** What both walks read from the header at `ptr`: name, size, and where the next header is. */
  datatype Header = Header(name: Bytes, size: nat, next: nat)

  method ReadHeader(data: Bytes, ptr: nat) returns (h: Option<Header>)
    requires ptr + BLOCK_SIZE <= |data| < MAX_SLICE
    ensures h.Some? <==> HasHeader(From(data, ptr))
    ensures h.Some? ==> HeaderAt(data, ptr, h.value) && h.value.next < W64
  {
    Fields(data, ptr);
    var signature := data[ptr + SIGNATURE_OFFSET..ptr + SIGNATURE_OFFSET + 5];
    if signature != USTAR {
      return None;
    }
    var size := Oct2Bin(data[ptr + FILE_SIZE_OFFSET..ptr + FILE_SIZE_OFFSET + FILE_SIZE_LENGTH]);
    var name := UpToNul(data[ptr..ptr + NAME_LENGTH]);
    var blocksNeeded := if size == 0 then 0 else (size + BLOCK_SIZE - 1) / BLOCK_SIZE;
    PaddingFits(size);
    return Some(Header(name, size, ptr + (blocksNeeded + 1) * BLOCK_SIZE)); // checked_add: cannot overflow
  }

  ghost predicate HeaderAt(data: Bytes, ptr: nat, h: Header)
    requires ptr + BLOCK_SIZE <= |data|
  {
    var img := From(data, ptr);
    && |img| >= BLOCK_SIZE && HasHeader(img)
    && h.name == NameOf(img) && h.size == SizeOf(img) && h.next == ptr + Stride(img)
    && ptr + BLOCK_SIZE + h.size <= h.next
  }

  /** All the data that the header announces is there. */
  lemma FileAt(data: Bytes, ptr: nat, h: Header, f: File)
    requires ptr + BLOCK_SIZE + h.size <= |data| && HeaderAt(data, ptr, h)
    requires f == File(h.name, data[ptr + BLOCK_SIZE..ptr + BLOCK_SIZE + h.size])
    ensures var img := From(data, ptr);
            HasFile(img) && FileOf(img) == f && Rest(img) == From(data, h.next)
  {
  }

  lemma LookupAt(img: Bytes, name: Bytes)
    requires HasFile(img)
    ensures Lookup(Entries(img), name) ==
            if NameOf(img) != name then Lookup(Entries(Rest(img)), name)
            else if Utf8(name) then Returned(Some(FileOf(img))) else Panicked
  {
    assert Entries(img)[1..] == Entries(Rest(img));
  }

  /** What finding a file at `ptr` means for the search. */
  lemma LookupFrom(data: Bytes, ptr: nat, h: Header, f: File, name: Bytes)
    requires ptr + BLOCK_SIZE + h.size <= |data| && HeaderAt(data, ptr, h)
    requires f == File(h.name, data[ptr + BLOCK_SIZE..ptr + BLOCK_SIZE + h.size])
    ensures Lookup(Entries(From(data, ptr)), name) ==
            if h.name != name then Lookup(Entries(From(data, h.next)), name)
            else if Utf8(name) then Returned(Some(f)) else Panicked
  {
    FileAt(data, ptr, h, f);
    LookupAt(From(data, ptr), name);
  }

  /** If the announced data is not there, the search ends. */
  lemma LookupCutOff(data: Bytes, ptr: nat, h: Header, name: Bytes)
    requires ptr + BLOCK_SIZE <= |data| < ptr + BLOCK_SIZE + h.size && HeaderAt(data, ptr, h)
    ensures Lookup(Entries(From(data, ptr)), name) == Returned(None)
  {
  }

  /** Nothing is behind the end. */
  lemma LookupAtEnd(data: Bytes, ptr: nat, name: Bytes)
    requires ptr + BLOCK_SIZE > |data| || !HasHeader(From(data, ptr))
    ensures Lookup(Entries(From(data, ptr)), name) == Returned(None)
  {
  }

  class USTarFileIterator {
    const data: Bytes
    var ptr: nat

    /** What is still to be read. */
    ghost function Remaining(): Bytes
      reads this
    {
      From(data, ptr)
    }

    constructor (data: Bytes)
      ensures this.data == data && Remaining() == data
    {
      this.data := data;
      ptr := 0;
    }

    /** Yields the next file, and `None` forever once there is none.  No index is out of bounds
        and no addition overflows. */
    method Next() returns (r: Option<File>)
      requires |data| < MAX_SLICE && ptr < W64
      modifies this
      ensures var img := old(Remaining());
              if r.Some?
              then HasFile(img) && Utf8(NameOf(img)) && r.value == FileOf(img) && Remaining() == Rest(img)
              else UstarModel.Files(img) == [] && UstarModel.Files(Remaining()) == []
      ensures old(ptr) <= ptr || ptr == |data|
      ensures r.Some? ==> old(ptr) + BLOCK_SIZE <= ptr < W64
      ensures ptr < W64
    {
      if ptr >= |data| || ptr + BLOCK_SIZE > |data| || ptr + SIGNATURE_OFFSET + 5 > |data| {
        return None;
      }
      var header := ReadHeader(data, ptr);
      if header.None? {
        return None;
      }
      var h := header.value;
      var dataStart := ptr + BLOCK_SIZE;
      var dataEnd := dataStart + h.size;
      if dataEnd > |data| {
        return None;
      }
      var file := File(h.name, data[dataStart..dataEnd]);
      FileAt(data, ptr, h, file);
      if !Utf8(h.name) {
        ptr := |data|;
        return None;
      }
      ptr := h.next;
      return Some(file);
    }
  }

  class USTar {
    const data: Bytes

    constructor (data: Bytes)
      ensures this.data == data
    {
      this.data := data;
    }

    method Files() returns (it: USTarFileIterator)
      ensures fresh(it) && it.data == data && it.Remaining() == data
    {
      it := new USTarFileIterator(data);
    }

    /** The first entry of that name, if any; a name that is found but is not UTF-8 panics.  Takes
        at most one turn of the loop per block. */
    method ReadFile(filename: Bytes) returns (r: Outcome<Option<File>>, ghost turns: nat)
      requires |data| < MAX_SLICE
      ensures r == Lookup(Entries(data), filename)
      ensures turns <= |data| / BLOCK_SIZE
    {
      var ptr := 0;
      turns := 0;
      assert From(data, 0) == data;
      while ptr + BLOCK_SIZE <= |data|
        invariant turns * BLOCK_SIZE <= ptr <= |data|
        invariant Lookup(Entries(From(data, ptr)), filename) == Lookup(Entries(data), filename)
        decreases |data| - ptr
      {
        turns := turns + 1;
        var result, next := Visit(ptr, filename);
        if result.Some? {
          return result.value, turns;
        }
        ptr := next;
      }
      LookupAtEnd(data, ptr, filename);
      return Returned(None), turns;
    }

    /** One turn of that loop: the result, or where the next header is. */
    method Visit(ptr: nat, filename: Bytes) returns (r: Option<Outcome<Option<File>>>, next: nat)
      requires ptr + BLOCK_SIZE <= |data| < MAX_SLICE
      ensures r.Some? ==> r.value == Lookup(Entries(From(data, ptr)), filename)
      ensures r.None? ==>
                && ptr + BLOCK_SIZE <= next <= |data|
                && Lookup(Entries(From(data, ptr)), filename) == Lookup(Entries(From(data, next)), filename)
    {
      var header := ReadHeader(data, ptr);
      if header.None? {
        LookupAtEnd(data, ptr, filename);
        return Some(Returned(None)), 0;
      }
      var h := header.value;
      var dataStart := ptr + BLOCK_SIZE;
      var dataEnd := dataStart + h.size;
      if dataEnd <= |data| {
        var file := File(h.name, data[dataStart..dataEnd]);
        LookupFrom(data, ptr, h, file, filename);
        if h.name == filename {
          if !Utf8(h.name) {
            return Some(Panicked), 0; // .expect("(USTAR) Unable to read filename!")
          }
          return Some(Returned(Some(file))), 0;
        }
      } else {
        LookupCutOff(data, ptr, h, filename);
      }
      if h.next > |data| {
        LookupAtEnd(data, h.next, filename);
        return Some(Returned(None)), 0;
      }
      return None, h.next;
    }
  }

  lemma MoveHead(r: seq<File>, f: File, left: seq<File>, rest: seq<File>)
    requires left == [f] + rest
    ensures r + left == r + [f] + rest && |rest| < |left|
  {
  }

  /** What a caller gets who drains the iterator, with at most one call per block, and the last
      one, which yields nothing. */
  method Collect(it: USTarFileIterator) returns (r: seq<File>, ghost calls: nat)
    requires |it.data| < MAX_SLICE && it.ptr < W64
    modifies it
    ensures r == Files(old(it.Remaining()))
    ensures calls == |r| + 1 <= |old(it.Remaining())| / BLOCK_SIZE + 1
  {
    r := [];
    calls := 0;
    EntriesAreFew(it.Remaining());
    ghost var left := Files(it.Remaining());
    while true
      invariant it.ptr < W64 && left == Files(it.Remaining()) && calls == |r|
      invariant Files(old(it.Remaining())) == r + left
      decreases |left|
    {
      calls := calls + 1;
      var next := it.Next();
      if next.None? {
        return;
      }
      ghost var rest := Files(it.Remaining());
      MoveHead(r, next.value, left, rest);
      left := rest;
      r := r + [next.value];
    }
  }

  /** Draining the iterator of an archive gives back the stored files. */
  method Drain(it: USTarFileIterator, ghost files: seq<File>) returns (r: seq<File>)
    requires |it.data| < MAX_SLICE && it.ptr < W64
    requires Archive(it.Remaining(), files) && forall f | f in files :: Storable(f)
    modifies it
    ensures r == files
  {
    RoundTrip(it.Remaining(), files);
    ghost var calls;
    r, calls := Collect(it);
  }
}
