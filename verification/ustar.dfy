// kernel/src/drivers/ustar.rs: what the reader finds in a ramdisk image.
module UstarModel {
  import opened Wrappers

  type Bytes = seq<Byte>

  const BLOCK_SIZE := 512
  const NAME_LENGTH := 100
  const FILE_SIZE_OFFSET := 0x7c
  const FILE_SIZE_LENGTH := 11
  const SIGNATURE_OFFSET := 257
  const USTAR: Bytes := [117, 115, 116, 97, 114] // "ustar"

  datatype File = File(name: Bytes, data: Bytes)

  // ---- Fields of a header block ----

  predicate IsDigit(b: Byte) { 48 <= b <= 57 }

  /** `oct2bin`, with `result` so far: every leading ASCII digit counts, even 8 and 9. */
  function Oct(result: nat, s: Bytes): nat
    decreases |s|
  {
    if s == [] || !IsDigit(s[0]) then result else Oct(result * 8 + (s[0] - 48), s[1..])
  }

  function Pow8(k: nat): nat { if k == 0 then 1 else 8 * Pow8(k - 1) }

  /** n in octal, with exactly k digits. */
  function OctDigits(n: nat, k: nat): (s: Bytes)
    ensures |s| == k
  {
    if k == 0 then [] else OctDigits(n / 8, k - 1) + [48 + n % 8]
  }

  lemma {:induction false} OctAppend(result: nat, s: Bytes, b: Byte)
    requires (forall c | c in s :: IsDigit(c)) && IsDigit(b)
    ensures Oct(result, s + [b]) == Oct(result, s) * 8 + (b - 48)
    decreases |s|
  {
    if s == [] {
      assert s + [b] == [b] && [b][1..] == [];
    } else {
      assert s[0] in s && (s + [b])[1..] == s[1..] + [b];
      OctAppend(result * 8 + (s[0] - 48), s[1..], b);
    }
  }

  /** What follows the first byte that is not a digit does not matter. */
  lemma {:induction false} OctStops(result: nat, s: Bytes, b: Byte, rest: Bytes)
    requires (forall c | c in s :: IsDigit(c)) && !IsDigit(b)
    ensures Oct(result, s + [b] + rest) == Oct(result, s)
    decreases |s|
  {
    if s == [] {
      assert (s + [b] + rest)[0] == b;
    } else {
      assert s[0] in s && (s + [b] + rest)[1..] == s[1..] + [b] + rest;
      OctStops(result * 8 + (s[0] - 48), s[1..], b, rest);
    }
  }

  /** `oct2bin` inverts octal notation. */
  lemma {:induction false} OctInvertsDigits(n: nat, k: nat)
    requires n < Pow8(k)
    ensures Oct(0, OctDigits(n, k)) == n
    ensures forall c | c in OctDigits(n, k) :: IsDigit(c)
    decreases k
  {
    if k == 0 {
    } else {
      OctInvertsDigits(n / 8, k - 1);
      OctAppend(0, OctDigits(n / 8, k - 1), 48 + n % 8);
    }
  }

  /** The sizes that can be written in the field, even with digits 8 and 9, fit a `usize`. */
  lemma {:induction false} OctBound(result: nat, s: Bytes, done: nat)
    requires done + |s| <= FILE_SIZE_LENGTH && result + 2 <= 2 * Pow8(done)
    ensures Oct(result, s) + 2 <= 2 * Pow8(FILE_SIZE_LENGTH)
    decreases |s|
  {
    if s != [] && IsDigit(s[0]) {
      OctBound(result * 8 + (s[0] - 48), s[1..], done + 1);
    } else {
      Pow8Grows(done, FILE_SIZE_LENGTH);
    }
  }

  lemma {:induction false} Pow8Grows(a: nat, b: nat)
    requires a <= b
    ensures Pow8(a) <= Pow8(b)
    decreases b
  {
    if a == b {
    } else {
      Pow8Grows(a, b - 1);
    }
  }

  /** The bytes before the first NUL. */
  function UpToNul(s: Bytes): (r: Bytes)
    ensures |r| <= |s| && r == s[..|r|] && (|r| < |s| ==> s[|r|] == 0) && 0 !in r
  {
    if s == [] || s[0] == 0 then [] else [s[0]] + UpToNul(s[1..])
  }

  lemma {:induction false} UpToNulOfPadded(s: Bytes, zeros: Bytes)
    requires 0 !in s && (zeros == [] || zeros[0] == 0)
    ensures UpToNul(s + zeros) == s
    decreases |s|
  {
    if s == [] {
      assert s + zeros == zeros;
    } else {
      assert (s + zeros)[1..] == s[1..] + zeros;
      UpToNulOfPadded(s[1..], zeros);
    }
  }

  predicate Between(b: Byte, lo: Byte, hi: Byte) { lo <= b <= hi }

  /** The length of the well-formed UTF-8 sequence that `s` starts with, or 0
      (table 3-7 of the Unicode Standard). */
  function Utf8Length(s: Bytes): (n: nat)
    ensures n <= |s|
  {
    if s == [] then 0
    else if s[0] <= 0x7f then 1
    else if |s| >= 2 && Between(s[0], 0xc2, 0xdf) && Between(s[1], 0x80, 0xbf) then 2
    else if |s| >= 3 && Between(s[2], 0x80, 0xbf)
         && ((s[0] == 0xe0 && Between(s[1], 0xa0, 0xbf)) || (Between(s[0], 0xe1, 0xec) && Between(s[1], 0x80, 0xbf))
             || (s[0] == 0xed && Between(s[1], 0x80, 0x9f)) || (Between(s[0], 0xee, 0xef) && Between(s[1], 0x80, 0xbf)))
    then 3
    else if |s| >= 4 && Between(s[2], 0x80, 0xbf) && Between(s[3], 0x80, 0xbf)
         && ((s[0] == 0xf0 && Between(s[1], 0x90, 0xbf)) || (Between(s[0], 0xf1, 0xf3) && Between(s[1], 0x80, 0xbf))
             || (s[0] == 0xf4 && Between(s[1], 0x80, 0x8f)))
    then 4
    else 0
  }

  /** `str::from_utf8` succeeds. */
  predicate Utf8(s: Bytes)
    decreases |s|
  {
    s == [] || (Utf8Length(s) > 0 && Utf8(s[Utf8Length(s)..]))
  }

  // What that accepts: exactly the encodings of texts (section 3 of RFC 3629).

  predicate IsScalar(c: nat) { c < 0xd800 || 0xe000 <= c < 0x11_0000 }

  function EncodeScalar(c: nat): Bytes
    requires IsScalar(c)
  {
    if c < 0x80 then [c]
    else if c < 0x800 then [0xc0 + c / 64, 0x80 + c % 64]
    else if c < 0x1_0000 then [0xe0 + c / 64 / 64, 0x80 + c / 64 % 64, 0x80 + c % 64]
    else [0xf0 + c / 64 / 64 / 64, 0x80 + c / 64 / 64 % 64, 0x80 + c / 64 % 64, 0x80 + c % 64]
  }

  ghost predicate IsText(t: seq<nat>) {
    forall c | c in t :: IsScalar(c)
  }

  function EncodeText(t: seq<nat>): Bytes
    requires IsText(t)
  {
    if t == [] then [] else EncodeScalar(t[0]) + EncodeText(t[1..])
  }

  /** The sequence that starts with an encoded scalar value is that encoding. */
  lemma ScalarLength(c: nat, s: Bytes)
    requires IsScalar(c) && |EncodeScalar(c)| <= |s| && s[..|EncodeScalar(c)|] == EncodeScalar(c)
    ensures Utf8Length(s) == |EncodeScalar(c)|
  {
    var e := EncodeScalar(c);
    assert forall k | 0 <= k < |e| :: s[k] == s[..|e|][k];
  }

  lemma Base64(q: nat, r: nat)
    requires r < 64
    ensures (q * 64 + r) / 64 == q && (q * 64 + r) % 64 == r
  {
  }

  lemma Scalar2(a: nat, b: nat)
    requires 2 <= a < 32 && b < 64
    ensures IsScalar(a * 64 + b) && EncodeScalar(a * 64 + b) == [0xc0 + a, 0x80 + b]
  {
    Base64(a, b);
  }

  lemma Scalar3(a: nat, b: nat, d: nat)
    requires a < 16 && b < 64 && d < 64 && a * 64 + b >= 0x20 && !(0x360 <= a * 64 + b < 0x380)
    ensures var c := (a * 64 + b) * 64 + d; IsScalar(c) && EncodeScalar(c) == [0xe0 + a, 0x80 + b, 0x80 + d]
  {
    Base64(a * 64 + b, d);
    Base64(a, b);
  }

  lemma Scalar4(a: nat, b: nat, d: nat, e: nat)
    requires a < 5 && b < 64 && d < 64 && e < 64 && 0x10 <= a * 64 + b < 0x110
    ensures var c := ((a * 64 + b) * 64 + d) * 64 + e;
            IsScalar(c) && EncodeScalar(c) == [0xf0 + a, 0x80 + b, 0x80 + d, 0x80 + e]
  {
    Base64((a * 64 + b) * 64 + d, e);
    Base64(a * 64 + b, d);
    Base64(a, b);
  }

  /** And every such sequence is an encoded scalar value. */
  lemma ScalarOf(s: Bytes) returns (c: nat)
    requires Utf8Length(s) > 0
    ensures IsScalar(c) && EncodeScalar(c) == s[..Utf8Length(s)]
  {
    var n := Utf8Length(s);
    if n == 1 {
      c := s[0];
    } else if n == 2 {
      var a: int, b: int := s[0], s[1];
      c := (a - 0xc0) * 64 + (b - 0x80);
      Scalar2(a - 0xc0, b - 0x80);
    } else if n == 3 {
      var a: int, b: int, d: int := s[0], s[1], s[2];
      c := ((a - 0xe0) * 64 + (b - 0x80)) * 64 + (d - 0x80);
      Scalar3(a - 0xe0, b - 0x80, d - 0x80);
    } else {
      var a: int, b: int, d: int, e: int := s[0], s[1], s[2], s[3];
      c := (((a - 0xf0) * 64 + (b - 0x80)) * 64 + (d - 0x80)) * 64 + (e - 0x80);
      Scalar4(a - 0xf0, b - 0x80, d - 0x80, e - 0x80);
    }
  }

  lemma {:induction false} TextIsUtf8(t: seq<nat>)
    requires IsText(t)
    ensures Utf8(EncodeText(t))
    decreases |t|
  {
    if t == [] {
    } else {
      var e, rest := EncodeScalar(t[0]), EncodeText(t[1..]);
      assert (e + rest)[..|e|] == e && (e + rest)[|e|..] == rest;
      ScalarLength(t[0], e + rest);
      TextIsUtf8(t[1..]);
    }
  }

  lemma TextOfParts(c: nat, t: seq<nat>, head: Bytes, tail: Bytes)
    requires IsScalar(c) && IsText(t) && EncodeScalar(c) == head && EncodeText(t) == tail
    ensures IsText([c] + t) && EncodeText([c] + t) == head + tail
  {
    assert ([c] + t)[1..] == t;
  }

  lemma {:induction false} Utf8IsText(s: Bytes) returns (t: seq<nat>)
    requires Utf8(s)
    ensures IsText(t) && EncodeText(t) == s
    decreases |s|
  {
    if s == [] {
      t := [];
    } else {
      var n := Utf8Length(s);
      var c := ScalarOf(s);
      var rest := Utf8IsText(s[n..]);
      t := [c] + rest;
      TextOfParts(c, rest, s[..n], s[n..]);
      SplitAt(s, n);
    }
  }

  lemma SplitAt(s: Bytes, n: nat)
    requires n <= |s|
    ensures s[..n] + s[n..] == s
  {
  }

  /** A name passes exactly if it is the encoding of some text. */
  lemma Utf8Iff(s: Bytes)
    ensures Utf8(s) <==> exists t: seq<nat> | IsText(t) :: EncodeText(t) == s
  {
    if Utf8(s) {
      var t := Utf8IsText(s);
    }
    if t: seq<nat> :| IsText(t) && EncodeText(t) == s {
      TextIsUtf8(t);
    }
  }

  /** In particular every ASCII name does. */
  lemma {:induction false} AsciiIsUtf8(s: Bytes)
    requires forall b | b in s :: b < 0x80
    ensures Utf8(s)
    decreases |s|
  {
    if s == [] {
    } else {
      assert s[0] in s && forall b | b in s[1..] :: b in s;
      AsciiIsUtf8(s[1..]);
    }
  }

  // ---- The archive ----

  function Blocks(size: nat): nat {
    if size == 0 then 0 else (size + BLOCK_SIZE - 1) / BLOCK_SIZE
  }

  /** The image starts with a header block. */
  predicate HasHeader(img: Bytes) {
    |img| >= BLOCK_SIZE && img[SIGNATURE_OFFSET..SIGNATURE_OFFSET + 5] == USTAR
  }

  function SizeOf(img: Bytes): nat
    requires |img| >= BLOCK_SIZE
  {
    Oct(0, img[FILE_SIZE_OFFSET..FILE_SIZE_OFFSET + FILE_SIZE_LENGTH])
  }

  function NameOf(img: Bytes): Bytes
    requires |img| >= BLOCK_SIZE
  {
    UpToNul(img[..NAME_LENGTH])
  }

  /** The image starts with a header and all the data it announces. */
  predicate HasFile(img: Bytes) {
    HasHeader(img) && BLOCK_SIZE + SizeOf(img) <= |img|
  }

  function FileOf(img: Bytes): File
    requires HasFile(img)
  {
    File(NameOf(img), img[BLOCK_SIZE..BLOCK_SIZE + SizeOf(img)])
  }

  /** From one header to the next. */
  function Stride(img: Bytes): nat
    requires |img| >= BLOCK_SIZE
  {
    (Blocks(SizeOf(img)) + 1) * BLOCK_SIZE
  }

  function Rest(img: Bytes): (r: Bytes)
    requires HasFile(img)
    ensures |r| + BLOCK_SIZE <= |img|
  {
    if Stride(img) <= |img| then img[Stride(img)..] else []
  }

  /** Every entry, whatever its name is. */
  function Entries(img: Bytes): seq<File>
    decreases |img|
  {
    if HasFile(img) then [FileOf(img)] + Entries(Rest(img)) else []
  }

  /** What iterating `files()` yields: it ends at a name that is not UTF-8. */
  function Files(img: Bytes): seq<File>
    decreases |img|
  {
    if HasFile(img) && Utf8(NameOf(img)) then [FileOf(img)] + Files(Rest(img)) else []
  }

  /** `read_file`: the first entry of that name; reading a name that is not UTF-8 panics. */
  function Lookup(entries: seq<File>, name: Bytes): Outcome<Option<File>> {
    if entries == [] then Returned(None)
    else if entries[0].name == name then (if Utf8(name) then Returned(Some(entries[0])) else Panicked)
    else Lookup(entries[1..], name)
  }

  function FirstNamed(files: seq<File>, name: Bytes): Option<File> {
    if files == [] then None
    else if files[0].name == name then Some(files[0])
    else FirstNamed(files[1..], name)
  }

  /** A file is a whole header block with the five bytes of the signature, and all the data that
      its size field announces; its name ends at the first NUL. */
  lemma FileMeaning(img: Bytes)
    ensures HasFile(img) <==>
              && |img| >= 512
              && img[257] == 117 && img[258] == 115 && img[259] == 116 && img[260] == 97 && img[261] == 114
              && 512 + Oct(0, img[0x7c..0x87]) <= |img|
    ensures HasFile(img) ==>
              && |FileOf(img).data| == Oct(0, img[0x7c..0x87]) && FileOf(img).data == img[512..512 + |FileOf(img).data|]
              && FileOf(img).name <= img[..100] && 0 !in FileOf(img).name
              && (|FileOf(img).name| < 100 ==> img[|FileOf(img).name|] == 0)
  {
    if |img| >= 512 {
      var s := img[257..262];
      assert s[0] == img[257] && s[1] == img[258] && s[2] == img[259] && s[3] == img[260] && s[4] == img[261];
    }
  }

  /** The entry starts with block number `b`. */
  ghost predicate EntryAt(img: Bytes, b: nat, e: File) {
    512 * b <= |img| && HasFile(img[512 * b..]) && FileOf(img[512 * b..]) == e
  }

  lemma RestInBlocks(img: Bytes) returns (b: nat)
    requires HasFile(img) && Stride(img) <= |img|
    ensures 512 * b <= |img| && Rest(img) == img[512 * b..]
  {
    b := Blocks(SizeOf(img)) + 1;
  }

  ghost predicate Stands(img: Bytes, e: File) {
    exists b: nat :: EntryAt(img, b, e)
  }

  lemma FirstStands(img: Bytes)
    requires HasFile(img)
    ensures Stands(img, FileOf(img))
  {
    assert img[512 * 0..] == img;
    assert EntryAt(img, 0, FileOf(img));
  }

  /** What stands in a later part of the image stands in the image. */
  lemma StandsFurtherOn(img: Bytes, k: nat, rest: Bytes, e: File)
    requires 512 * k <= |img| && rest == img[512 * k..] && Stands(rest, e)
    ensures Stands(img, e)
  {
    var b: nat :| EntryAt(rest, b, e);
    assert rest[512 * b..] == img[512 * (k + b)..];
    assert EntryAt(img, k + b, e);
  }

  lemma RestStands(img: Bytes, e: File)
    requires HasFile(img) && Stands(Rest(img), e)
    ensures Stands(img, e)
  {
    if Stride(img) <= |img| {
      var k := RestInBlocks(img);
      StandsFurtherOn(img, k, Rest(img), e);
    }
  }

  /** Whatever the image holds: every entry that is found stands in it, and nothing else is ever
      shown. */
  lemma {:induction false} EntriesAreThere(img: Bytes)
    ensures forall e | e in Entries(img) :: Stands(img, e)
    decreases |img|
  {
    if !HasFile(img) {
    } else {
      FirstStands(img);
      EntriesAreThere(Rest(img));
      forall e | e in Entries(Rest(img))
        ensures Stands(img, e)
      {
        RestStands(img, e);
      }
    }
  }

  // ---- The two traversals agree ----

  ghost predicate AllUtf8(entries: seq<File>) {
    forall e | e in entries :: Utf8(e.name)
  }

  lemma {:induction false} FilesAreEntries(img: Bytes)
    requires AllUtf8(Entries(img))
    ensures Files(img) == Entries(img)
    decreases |img|
  {
    if !HasFile(img) {
    } else {
      var es := Entries(img);
      assert es[0] in es && es[1..] == Entries(Rest(img));
      assert forall e | e in es[1..] :: e in es;
      FilesAreEntries(Rest(img));
    }
  }

  lemma {:induction false} LookupIsFirstNamed(entries: seq<File>, name: Bytes)
    requires AllUtf8(entries)
    ensures Lookup(entries, name) == Returned(FirstNamed(entries, name))
    decreases |entries|
  {
    if entries == [] {
    } else {
      assert entries[0] in entries;
      LookupIsFirstNamed(entries[1..], name);
    }
  }

  /** Nothing if no file has the name, otherwise the first one that has. */
  lemma {:induction false} FirstNamedMeaning(files: seq<File>, name: Bytes)
    ensures match FirstNamed(files, name)
            case None => forall f | f in files :: f.name != name
            case Some(file) =>
              exists i | 0 <= i < |files| ::
                files[i] == file && file.name == name && forall j | 0 <= j < i :: files[j].name != name
    decreases |files|
  {
    if files == [] {
    } else if files[0].name == name {
      assert files[0] == FirstNamed(files, name).value;
    } else {
      var rest := files[1..];
      FirstNamedMeaning(rest, name);
      if FirstNamed(rest, name).Some? {
        var i :| 0 <= i < |rest| && rest[i] == FirstNamed(rest, name).value && rest[i].name == name
                 && forall j | 0 <= j < i :: rest[j].name != name;
        assert files[i + 1] == rest[i];
        assert forall j | 0 < j <= i :: files[j] == rest[j - 1];
      }
    }
  }

  /** At the first entry whose name is not UTF-8, reading that name panics. */
  lemma {:induction false} BadNamePanics(entries: seq<File>) returns (name: Bytes)
    requires !AllUtf8(entries)
    ensures Lookup(entries, name) == Panicked
    decreases |entries|
  {
    if !Utf8(entries[0].name) {
      name := entries[0].name;
    } else {
      var e :| e in entries && !Utf8(e.name);
      assert e in entries[1..];
      name := BadNamePanics(entries[1..]);
      PanickedNameIsBad(entries[1..], name);
    }
  }

  lemma {:induction false} PanickedNameIsBad(entries: seq<File>, name: Bytes)
    requires Lookup(entries, name) == Panicked
    ensures !Utf8(name)
    decreases |entries|
  {
    if entries[0].name == name {
    } else {
      PanickedNameIsBad(entries[1..], name);
    }
  }

  /** `read_file(name)` is the first of `files()` with that name, for every name, exactly when all
      names on the way are UTF-8. */
  lemma ReadFileAgreesWithFilesIff(img: Bytes)
    ensures (forall name: Bytes :: Lookup(Entries(img), name) == Returned(FirstNamed(Files(img), name)))
            <==> AllUtf8(Entries(img))
  {
    if AllUtf8(Entries(img)) {
      FilesAreEntries(img);
      forall name: Bytes
        ensures Lookup(Entries(img), name) == Returned(FirstNamed(Files(img), name))
      {
        LookupIsFirstNamed(Entries(img), name);
      }
    } else {
      var name := BadNamePanics(Entries(img));
      assert Lookup(Entries(img), name) != Returned(FirstNamed(Files(img), name));
    }
  }

  /** There is at most one entry per block. */
  lemma {:induction false} EntriesAreFew(img: Bytes)
    ensures |Entries(img)| <= |img| / BLOCK_SIZE && |Files(img)| <= |Entries(img)|
    decreases |img|
  {
    if !HasFile(img) {
    } else {
      EntriesAreFew(Rest(img));
    }
  }

  /** A name that is not UTF-8: `files()` does not show the entry, reading it panics. */
  lemma BadNameIsNotShown(img: Bytes)
    requires HasFile(img) && NameOf(img) == [0xff]
    ensures Files(img) == [] && Lookup(Entries(img), [0xff]) == Panicked
  {
    assert Entries(img)[0] == FileOf(img);
  }

  // ---- Round trip ----

  ghost predicate Storable(f: File) {
    |f.name| <= NAME_LENGTH && 0 !in f.name && Utf8(f.name) && |f.data| < Pow8(FILE_SIZE_LENGTH)
  }

  /** The fields that matter in a header; all other bytes are free. */
  ghost predicate HeaderFor(h: Bytes, f: File) {
    && |h| == BLOCK_SIZE && |f.name| <= NAME_LENGTH
    && h[..NAME_LENGTH] == f.name + Zeros(NAME_LENGTH - |f.name|)
    && h[FILE_SIZE_OFFSET..FILE_SIZE_OFFSET + FILE_SIZE_LENGTH] == OctDigits(|f.data|, FILE_SIZE_LENGTH)
    && h[SIGNATURE_OFFSET..SIGNATURE_OFFSET + 5] == USTAR
  }

  function Zeros(n: nat): Bytes { seq(n, i => 0) }

  /** The image holds the files in the ustar interchange format, one header and padded data after
      the other, and then anything that does not look like a header. */
  ghost predicate Archive(img: Bytes, files: seq<File>)
    decreases |files|
  {
    if files == [] then !HasHeader(img)
    else
      var f := files[0];
      var end := BLOCK_SIZE + Blocks(|f.data|) * BLOCK_SIZE;
      && end <= |img| && BLOCK_SIZE + |f.data| <= end
      && HeaderFor(img[..BLOCK_SIZE], f)
      && img[BLOCK_SIZE..BLOCK_SIZE + |f.data|] == f.data
      && Archive(img[end..], files[1..])
  }

  lemma SliceOfPrefix(s: Bytes, n: nat, i: nat, j: nat)
    requires i <= j <= n <= |s|
    ensures s[..n][i..j] == s[i..j]
  {
  }

  lemma HeaderIsRead(img: Bytes, f: File)
    requires |img| >= BLOCK_SIZE && HeaderFor(img[..BLOCK_SIZE], f) && Storable(f)
    ensures HasHeader(img) && NameOf(img) == f.name && SizeOf(img) == |f.data|
  {
    SliceOfPrefix(img, BLOCK_SIZE, 0, NAME_LENGTH);
    SliceOfPrefix(img, BLOCK_SIZE, FILE_SIZE_OFFSET, FILE_SIZE_OFFSET + FILE_SIZE_LENGTH);
    SliceOfPrefix(img, BLOCK_SIZE, SIGNATURE_OFFSET, SIGNATURE_OFFSET + 5);
    UpToNulOfPadded(f.name, Zeros(NAME_LENGTH - |f.name|));
    OctInvertsDigits(|f.data|, FILE_SIZE_LENGTH);
  }

  /** Iterating over an archive yields exactly the files that were stored, in order. */
  lemma {:induction false} RoundTrip(img: Bytes, files: seq<File>)
    requires Archive(img, files) && forall f | f in files :: Storable(f)
    ensures Files(img) == files
    decreases |files|
  {
    if files == [] {
    } else {
      var f := files[0];
      var end := BLOCK_SIZE + Blocks(|f.data|) * BLOCK_SIZE;
      assert f in files;
      HeaderIsRead(img, f);
      assert Stride(img) == end && Rest(img) == img[end..];
      RoundTrip(img[end..], files[1..]);
      assert FileOf(img) == f;
    }
  }

  /** A writer of such archives. */
  function Header(f: File): Bytes
    requires |f.name| <= NAME_LENGTH
  {
    f.name + Zeros(NAME_LENGTH - |f.name|) + Zeros(24) + OctDigits(|f.data|, FILE_SIZE_LENGTH) + Zeros(122) + USTAR + Zeros(250)
  }

  function Encode(files: seq<File>): Bytes
    requires forall f | f in files :: |f.name| <= NAME_LENGTH
  {
    if files == [] then Zeros(2 * BLOCK_SIZE)
    else
      var f := files[0];
      PaddingFits(|f.data|);
      Header(f) + f.data + Zeros(Blocks(|f.data|) * BLOCK_SIZE - |f.data|) + Encode(files[1..])
  }

  lemma PaddingFits(size: nat)
    ensures size <= Blocks(size) * BLOCK_SIZE < size + BLOCK_SIZE
  {
  }

  lemma HeaderIsHeader(f: File)
    requires |f.name| <= NAME_LENGTH
    ensures HeaderFor(Header(f), f)
  {
    var h := Header(f);
    var name := f.name + Zeros(NAME_LENGTH - |f.name|);
    var size := OctDigits(|f.data|, FILE_SIZE_LENGTH);
    assert |h| == BLOCK_SIZE;
    assert h[..NAME_LENGTH] == name;
    assert h[FILE_SIZE_OFFSET..FILE_SIZE_OFFSET + FILE_SIZE_LENGTH] == size;
    assert h[SIGNATURE_OFFSET..SIGNATURE_OFFSET + 5] == USTAR;
  }

  lemma {:induction false} EncodeIsArchive(files: seq<File>)
    requires forall f | f in files :: |f.name| <= NAME_LENGTH
    ensures Archive(Encode(files), files)
    decreases |files|
  {
    if files == [] {
      assert Encode(files)[SIGNATURE_OFFSET] == 0;
      assert Encode(files)[SIGNATURE_OFFSET..SIGNATURE_OFFSET + 5][0] == 0;
    } else {
      var f := files[0];
      PaddingFits(|f.data|);
      HeaderIsHeader(f);
      EncodeIsArchive(files[1..]);
      Layout(Header(f), f.data, Zeros(Blocks(|f.data|) * BLOCK_SIZE - |f.data|), Encode(files[1..]));
    }
  }

  lemma Layout(h: Bytes, data: Bytes, pad: Bytes, rest: Bytes)
    ensures var img := h + data + pad + rest;
            && img[..|h|] == h && img[|h|..|h| + |data|] == data
            && img[|h| + |data| + |pad|..] == rest
  {
  }

  /** Such an image exists. */
  lemma BadNameImage() returns (img: Bytes)
    ensures HasFile(img) && Files(img) == [] && Lookup(Entries(img), [0xff]) == Panicked
  {
    var f := File([0xff], []);
    img := Header(f);
    HeaderIsHeader(f);
    assert img[..BLOCK_SIZE] == img;
    assert img[..NAME_LENGTH] == f.name + Zeros(NAME_LENGTH - 1);
    UpToNulOfPadded(f.name, Zeros(NAME_LENGTH - 1));
    OctInvertsDigits(0, FILE_SIZE_LENGTH);
    assert NameOf(img) == [0xff];
    BadNameIsNotShown(img);
  }

  /** Writing and reading gives the files back. */
  lemma EncodeDecode(files: seq<File>)
    requires forall f | f in files :: Storable(f)
    ensures (forall f | f in files :: |f.name| <= NAME_LENGTH) && Files(Encode(files)) == files
  {
    EncodeIsArchive(files);
    RoundTrip(Encode(files), files);
  }
}
