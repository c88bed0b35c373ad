// kernel/src/pci.rs: configuration space accesses.  The device is a register file that keeps the
// writable bits of what is written and always shows its fixed bits.
module Pci {
  import opened Wrappers
  import opened Bits

  // ---- Addresses ----

  /** The address of a register in the ECAM window. */
  function EcamAddress(base: nat, bus: nat, slot: nat, func: nat, offset: nat): nat {
    base + Shl(bus, 20) + Shl(slot, 15) + Shl(func, 12) + offset
  }

  /** The value written to port CF8. */
  function Cf8Address(bus: nat, slot: nat, func: nat, offset: nat): nat {
    Or(Or(Or(Or(Shl(1, 31), Shl(bus, 16)), Shl(slot, 11)), Shl(func, 8)), And(offset, 0xFC))
  }

  lemma EcamSum(base: nat, bus: nat, slot: nat, func: nat, offset: nat)
    ensures EcamAddress(base, bus, slot, func, offset)
            == base + 0x10_0000 * bus + 0x8000 * slot + 0x1000 * func + offset
  {
    Words();
    ShlIsProduct(bus, 20);
    ShlIsProduct(slot, 15);
    ShlIsProduct(func, 12);
  }

  /** Every register of every function on buses 0 to endBus lies in the window of endBus + 1
      megabytes. */
  lemma EcamWindow(base: nat, endBus: nat, bus: nat, slot: nat, func: nat, offset: nat)
    requires bus <= endBus && slot < 32 && func < 8 && offset < 4096
    ensures base <= EcamAddress(base, bus, slot, func, offset) < base + Shl(endBus + 1, 20)
  {
    EcamSum(base, bus, slot, func, offset);
    Words();
    ShlIsProduct(endBus + 1, 20);
  }

  /** Each function has a page of its own. */
  lemma EcamPage(base: nat, bus: nat, slot: nat, func: nat, offset: nat)
    requires base % 4096 == 0 && offset < 4096
    ensures EcamAddress(base, bus, slot, func, offset) / 4096 == EcamAddress(base, bus, slot, func, 0) / 4096
    ensures EcamAddress(base, bus, slot, func, offset) % 4096 == offset
  {
    EcamSum(base, bus, slot, func, offset);
    EcamSum(base, bus, slot, func, 0);
    var q := base / 4096 + 0x100 * bus + 8 * slot + func;
    DivModUnique(EcamAddress(base, bus, slot, func, offset), 4096, q, offset);
    DivModUnique(EcamAddress(base, bus, slot, func, 0), 4096, q, 0);
  }

  lemma EcamFunctionsApart(base: nat, bus: nat, slot: nat, func: nat, o: nat, bus': nat, slot': nat, func': nat, o': nat)
    requires slot < 32 && func < 8 && o < 4096 && slot' < 32 && func' < 8 && o' < 4096
    ensures EcamAddress(base, bus, slot, func, o) == EcamAddress(base, bus', slot', func', o')
            <==> bus == bus' && slot == slot' && func == func' && o == o'
  {
    EcamSum(base, bus, slot, func, o);
    EcamSum(base, bus', slot', func', o');
    if EcamAddress(base, bus, slot, func, o) == EcamAddress(base, bus', slot', func', o') {
      Digits(bus, 0x8000 * slot + 0x1000 * func + o, bus', 0x8000 * slot' + 0x1000 * func' + o', 0x10_0000);
      Digits(slot, 0x1000 * func + o, slot', 0x1000 * func' + o', 0x8000);
      Digits(func, o, func', o', 0x1000);
    }
  }

  lemma Digits(q: nat, r: nat, q': nat, r': nat, d: nat)
    requires r < d && r' < d && q * d + r == q' * d + r'
    ensures q == q' && r == r'
  {
    DivModUnique(q * d + r, d, q, r);
    DivModUnique(q * d + r, d, q', r');
  }

  lemma Cf8Sum(bus: nat, slot: nat, func: nat, offset: nat)
    requires bus < 256 && slot < 32 && func < 8 && offset < W16
    ensures Cf8Address(bus, slot, func, offset)
            == 0x8000_0000 + 0x1_0000 * bus + 0x800 * slot + 0x100 * func + (offset % 256 - offset % 4)
  {
    Cf8Fields(bus, slot, func, offset);
    var a := OrField(0x8000_0000, 0x80, Shl(bus, 16), bus, 16, 8, 0x1_0000, 0x100);
    var b := OrField(a, 0x8000 + bus, Shl(slot, 11), slot, 11, 5, 0x800, 0x20);
    var c := OrField(b, 0x10_0000 + 0x20 * bus + slot, Shl(func, 8), func, 8, 3, 0x100, 8);
    var low := offset % 256 - offset % 4;
    var d := OrField(c, 0x80_0000 + 0x100 * bus + 8 * slot + func, low, low, 0, 8, 1, 0x100);
  }

  /** `a | b` for a field b = field << k under the bits a = high << (k + n). */
  lemma OrField(a: nat, high: nat, b: nat, field: nat, k: nat, n: nat, p: nat, q: nat) returns (r: nat)
    requires p == Pow2(k) && q == Pow2(n) && field < q && a == high * (p * q) && b == field * p
    ensures r == Or(a, b) == a + b
  {
    AddField(high, field, k, n, p, q);
    r := a + b;
  }

  lemma Cf8Fields(bus: nat, slot: nat, func: nat, offset: nat)
    ensures Shl(1, 31) == 0x8000_0000 && Shl(bus, 16) == 0x1_0000 * bus
    ensures Shl(slot, 11) == 0x800 * slot && Shl(func, 8) == 0x100 * func
    ensures And(offset, 0xFC) == offset % 256 - offset % 4
    ensures Pow2(16) == 0x1_0000 && Pow2(8) == 0x100 && Pow2(11) == 0x800 && Pow2(5) == 32 && Pow2(3) == 8
  {
    Words();
    ShlIsProduct(1, 31);
    ShlIsProduct(bus, 16);
    ShlIsProduct(slot, 11);
    ShlIsProduct(func, 8);
    AndBand(offset, 0xFC, 8, 2);
    LowIsMod(offset, 8);
    LowIsMod(offset, 2);
  }

  /** Or-ing an n-bit field at bit k under the bits that are above it. */
  lemma AddField(high: nat, field: nat, k: nat, n: nat, p: nat, q: nat)
    requires p == Pow2(k) && q == Pow2(n) && field < q
    ensures Or(high * (p * q), field * p) == high * (p * q) + field * p
  {
    Pow2Sum(k, n);
    FieldBelow(field, n, k);
    OrUnder(high * (p * q), field * p, high, k + n, p * q);
  }

  lemma OrUnder(a: nat, b: nat, high: nat, k: nat, t: nat)
    requires t == Pow2(k) && a == high * t && b < t
    ensures Or(a, b) == a + b
  {
    DivModUnique(a, t, high, 0);
    LowIsMod(a, k);
    OrAddsDisjoint(a, b, k);
  }

  lemma FieldBelow(field: nat, n: nat, k: nat)
    requires field < Pow2(n)
    ensures field * Pow2(k) < Pow2(k + n)
  {
    ShlFits(field, n, k, k + n);
    ShlIsProduct(field, k);
  }

  /** Through port CF8, two registers are the same exactly if function and dword within the first
      256 bytes are: extended configuration space is not reachable, its offsets wrap around. */
  lemma Cf8AddressesDiffer(bus: nat, slot: nat, func: nat, o: nat, bus': nat, slot': nat, func': nat, o': nat)
    requires bus < 256 && slot < 32 && func < 8 && o < W16
    requires bus' < 256 && slot' < 32 && func' < 8 && o' < W16
    ensures Cf8Address(bus, slot, func, o) == Cf8Address(bus', slot', func', o')
            <==> bus == bus' && slot == slot' && func == func' && o % 256 / 4 == o' % 256 / 4
  {
    Cf8Sum(bus, slot, func, o);
    Cf8Sum(bus', slot', func', o');
    Dword(o);
    Dword(o');
    if Cf8Address(bus, slot, func, o) == Cf8Address(bus', slot', func', o') {
      Cf8Digits(bus, slot, func, o % 256 / 4, bus', slot', func', o' % 256 / 4);
    }
  }

  lemma ExtendedOffsetsAlias(bus: nat, slot: nat, func: nat)
    requires bus < 256 && slot < 32 && func < 8
    ensures Cf8Address(bus, slot, func, 0x100) == Cf8Address(bus, slot, func, 0)
  {
    Cf8AddressesDiffer(bus, slot, func, 0x100, bus, slot, func, 0);
  }

  lemma Cf8Digits(bus: nat, slot: nat, func: nat, d: nat, bus': nat, slot': nat, func': nat, d': nat)
    requires slot < 32 && func < 8 && d < 64 && slot' < 32 && func' < 8 && d' < 64
    requires 0x1_0000 * bus + 0x800 * slot + 0x100 * func + 4 * d
             == 0x1_0000 * bus' + 0x800 * slot' + 0x100 * func' + 4 * d'
    ensures bus == bus' && slot == slot' && func == func' && d == d'
  {
    Digits(bus, 0x800 * slot + 0x100 * func + 4 * d, bus', 0x800 * slot' + 0x100 * func' + 4 * d', 0x1_0000);
    Digits(slot, 0x100 * func + 4 * d, slot', 0x100 * func' + 4 * d', 0x800);
    Digits(func, 4 * d, func', 4 * d', 0x100);
  }

  lemma Dword(o: nat)
    ensures o % 256 - o % 4 == 4 * (o % 256 / 4) < 256
  {
    var q, r := o / 256, o % 256;
    DivModUnique(o, 4, 64 * q + r / 4, r % 4);
  }

  // ---- Registers ----

  /** A register of the hardware: the bits that software can set, and those that always show. */
  datatype Register = Register(writable: nat, fixed: nat) {
    function After(value: nat): nat { And(value, writable) + fixed }
  }

  /** A register whose upper bits, from bit k on, are writable. */
  function Above(k: nat, fixed: nat): Register
    requires k <= 32
  {
    Pow2Monotone(k, 32);
    Register(Pow2(32) - Pow2(k), fixed)
  }

  /** The writable bits as written, and below them what always shows. */
  function Shown(k: nat, fixed: nat, value: nat): nat { value - Low(value, k) + fixed }

  lemma AboveAfter(k: nat, fixed: nat, value: nat)
    requires k <= 32 && value < W32
    ensures Above(k, fixed).After(value) == Shown(k, fixed, value)
  {
    Word32();
    AndClearsLow(value, Above(k, fixed).writable, 32, k);
  }

  lemma ShownTwice(k: nat, fixed: nat, value: nat, r: nat)
    requires k <= 32 && fixed < Pow2(k) && value < W32 && r == Shown(k, fixed, value)
    ensures r < W32 && Shown(k, fixed, r) == r
  {
    Word32();
    ReplacedFits(value, 32, k, fixed, r);
    LowReplaced(value, k, fixed, r);
  }

  /** The low bits show the remainder by d = 2^bits. */
  lemma ShownType(k: nat, flags: nat, value: nat, bits: nat, d: nat, r: nat)
    requires bits <= k <= 32 && value < W32 && flags < d == Pow2(bits) && r == Shown(k, flags, value)
    ensures r < W32 && r % d == flags
  {
    Pow2Monotone(bits, k);
    ShownTwice(k, flags, value, r);
    LowReplaced(value, k, flags, r);
    LowOfLow(r, flags, bits, k);
    LowOfSmall(flags, bits);
    LowIsMod(r, bits);
  }

  lemma Word32()
    ensures Pow2(32) == W32
  {
    Words();
  }

  const PLAIN := Register(W32 - 1, 0)

  lemma PlainAfter(value: nat)
    requires value < W32
    ensures PLAIN.After(value) == value
  {
    Words();
    AndKeepsLow(value, 32);
    LowOfSmall(value, 32);
  }

  /** What a base address register can be (section 6.2.5.1 of the PCI Local Bus Specification). */
  datatype Bar =
    | IoBar(k: nat)                        // 2^k ports
    | MemBar(k: nat, prefetch: bool)       // 2^k bytes, 32-bit address
    | WideBar(k: nat, prefetch: bool)      // 2^k bytes, 64-bit address in two registers
    | NoBar

  function Flags(bar: Bar): nat {
    match bar
    case IoBar(_) => 1
    case MemBar(_, prefetch) => if prefetch then 8 else 0
    case WideBar(_, prefetch) => if prefetch then 12 else 4
    case NoBar => 0
  }

  predicate BarOk(bar: Bar) {
    match bar
    case IoBar(k) => 2 <= k < 32
    case MemBar(k, _) => 4 <= k < 32
    case WideBar(k, _) => 4 <= k < 64
    case NoBar => true
  }

  /** The register at the BAR's own offset. */
  function LowRegister(bar: Bar): Register
    requires BarOk(bar)
  {
    match bar
    case NoBar => Register(0, 0)
    case _ => Above(Min(bar.k, 32), Flags(bar))
  }

  /** The next register, for a 64-bit BAR. */
  function HighRegister(bar: Bar): Register
    requires BarOk(bar) && bar.WideBar?
  {
    Above(if bar.k > 32 then bar.k - 32 else 0, 0)
  }

  /** The low register of a BAR always shows its type. */
  lemma LowShows(bar: Bar, value: nat, r: nat)
    requires BarOk(bar) && value < W32 && r == LowRegister(bar).After(value)
    ensures r < W32 && (if bar.IoBar? then r % 4 == 1 else r % 16 == Flags(bar))
  {
    if bar.NoBar? {
      assert LowRegister(bar) == Register(0, 0);
      AndZero(value);
    } else {
      assert LowRegister(bar) == Above(Min(bar.k, 32), Flags(bar));
      AboveShows(Min(bar.k, 32), Flags(bar), value, if bar.IoBar? then 2 else 4, r);
    }
  }

  lemma AboveShows(k: nat, flags: nat, value: nat, bits: nat, r: nat)
    requires bits <= k <= 32 && value < W32 && r == Above(k, flags).After(value)
    requires (bits == 2 && flags < 4) || (bits == 4 && flags < 16)
    ensures r < W32 && r % (if bits == 2 then 4 else 16) == flags
  {
    assert Pow2(2) == 4 && Pow2(4) == 16;
    AboveAfter(k, flags, value);
    ShownType(k, flags, value, bits, if bits == 2 then 4 else 16, r);
  }

  /** With all ones written, the low register shows its address bits and its type. */
  lemma LowProbed(bar: Bar)
    requires BarOk(bar) && !bar.NoBar?
    ensures Pow2(Min(bar.k, 32)) <= W32
    ensures LowRegister(bar).After(W32 - 1) == W32 - Pow2(Min(bar.k, 32)) + Flags(bar)
  {
    AllOnes(Min(bar.k, 32));
    AboveAfter(Min(bar.k, 32), Flags(bar), W32 - 1);
  }

  lemma AllOnes(k: nat)
    requires k <= 32
    ensures Pow2(k) <= W32 && Low(W32 - 1, k) == Pow2(k) - 1
  {
    Word32();
    LowOfOnes(32, k);
  }

  // What the masks of `probe_bar_size` make of that.

  lemma TopMask(x: nat, k: nat)
    requires x < W32 && (k == 2 || k == 4)
    ensures And(x, if k == 2 then 0xFFFF_FFFC else 0xFFFF_FFF0) == x - x % (if k == 2 then 4 else 16)
  {
    Word32();
    assert Pow2(2) == 4 && Pow2(4) == 16;
    AndClearsLow(x, if k == 2 then 0xFFFF_FFFC else 0xFFFF_FFF0, 32, k);
    LowIsMod(x, k);
  }

  lemma LowMask(bar: Bar)
    requires BarOk(bar) && !bar.NoBar?
    ensures var low := LowRegister(bar).After(W32 - 1);
            && low < W32
            && And(low, if bar.IoBar? then 0xFFFF_FFFC else 0xFFFF_FFF0) == W32 - Pow2(Min(bar.k, 32))
  {
    LowShows(bar, W32 - 1, LowRegister(bar).After(W32 - 1));
    LowProbed(bar);
    TopMask(LowRegister(bar).After(W32 - 1), if bar.IoBar? then 2 else 4);
  }

  lemma Complement(k: nat)
    requires k < 64
    ensures Pow2(k) < W64 && (k < 32 ==> Pow2(k) < W32)
    ensures Not(W64 - Pow2(k), W64) + 1 == Pow2(k)
    ensures k < 32 ==> Not(W32 - Pow2(k), W32) + 1 == Pow2(k)
  {
    Words();
    Pow2Monotone(k, 63);
    if k < 32 {
      Pow2Monotone(k, 31);
    }
  }

  /** The two halves of a 64-bit mask. */
  lemma WideMask(bar: Bar)
    requires BarOk(bar) && bar.WideBar?
    ensures Pow2(Min(bar.k, 32)) <= W32
    ensures var high := HighRegister(bar).After(W32 - 1);
            Or(Shl(high, 32), W32 - Pow2(Min(bar.k, 32))) == W64 - Pow2(bar.k)
  {
    Word32();
    Pow2Monotone(Min(bar.k, 32), 32);
    HighProbed(bar);
    JoinHalves(HighRegister(bar).After(W32 - 1), W32 - Pow2(Min(bar.k, 32)));
    if bar.k >= 32 {
      Pow2Sum(bar.k - 32, 32);
      assert (W32 - Pow2(bar.k - 32)) * W32 == W64 - Pow2(bar.k - 32) * W32;
    }
  }

  lemma HighProbed(bar: Bar)
    requires BarOk(bar) && bar.WideBar?
    ensures var kh := if bar.k > 32 then bar.k - 32 else 0;
            Pow2(kh) <= W32 && HighRegister(bar).After(W32 - 1) == W32 - Pow2(kh)
  {
    var kh := if bar.k > 32 then bar.k - 32 else 0;
    AllOnes(kh);
    AboveAfter(kh, 0, W32 - 1);
  }

  lemma JoinHalves(high: nat, low: nat)
    requires low < W32
    ensures Or(Shl(high, 32), low) == high * W32 + low
  {
    Word32();
    ShlIsProduct(high, 32);
    OrUnder(high * W32, low, high, 32, W32);
  }

  /** `!mask + 1`, unless the mask is 0 */
  function MaskSize(mask: nat, top: nat): Option<nat>
    requires mask < top
  {
    if mask == 0 then None else Some(Not(mask, top) + 1)
  }

  ghost predicate RegisterOk(r: Register) {
    forall v: nat | v < W32 :: Keeps(r, v)
  }

  /** What the register shows after a write, it also shows after that is written back. */
  ghost predicate Keeps(r: Register, v: nat) {
    r.After(v) < W32 && r.After(r.After(v)) == r.After(v)
  }

  /** The registers of every BAR, and plain ones, are of this kind. */
  lemma BarRegistersKeep(bar: Bar)
    requires BarOk(bar)
    ensures RegisterOk(LowRegister(bar)) && RegisterOk(PLAIN)
    ensures bar.WideBar? ==> RegisterOk(HighRegister(bar))
  {
    forall v: nat | v < W32
      ensures Keeps(LowRegister(bar), v) && Keeps(PLAIN, v)
      ensures bar.WideBar? ==> Keeps(HighRegister(bar), v)
    {
      PlainAfter(v);
      if bar.NoBar? {
        AndZero(v);
        AndZero(0);
      } else {
        FlagsFit(bar);
        AboveKeeps(Min(bar.k, 32), Flags(bar), v);
        if bar.WideBar? {
          AboveKeeps(if bar.k > 32 then bar.k - 32 else 0, 0, v);
        }
      }
    }
  }

  lemma FlagsFit(bar: Bar)
    requires BarOk(bar) && !bar.NoBar?
    ensures Flags(bar) < Pow2(Min(bar.k, 32))
  {
    assert Pow2(2) == 4 && Pow2(4) == 16;
    Pow2Monotone(if bar.IoBar? then 2 else 4, Min(bar.k, 32));
  }

  lemma AboveKeeps(k: nat, fixed: nat, v: nat)
    requires k <= 32 && fixed < Pow2(k) && v < W32
    ensures Keeps(Above(k, fixed), v)
  {
    AboveAfter(k, fixed, v);
    ShownTwice(k, fixed, v, Shown(k, fixed, v));
    AboveAfter(k, fixed, Shown(k, fixed, v));
  }

  lemma BarOffset(bar: nat)
    ensures (0x10 + bar * 4) % 4 == 0 && (0x10 + bar * 4) / 4 == 4 + bar
  {
  }

  class PCIDevice {
    const registers: seq<Register>
    var config: seq<nat>

    /** Every register shows a value that it keeps when it is written back. */
    ghost predicate Valid()
      reads this
    {
      && |config| == |registers| >= 16
      && (forall i | 0 <= i < |registers| :: RegisterOk(registers[i]))
      && forall i | 0 <= i < |config| :: config[i] < W32 && registers[i].After(config[i]) == config[i]
    }

    ghost predicate IsBar(i: nat, bar: Bar)
      requires |registers| >= 16
    {
      && i <= 5 && BarOk(bar) && registers[4 + i] == LowRegister(bar)
      && (bar.WideBar? ==> i < 5 && registers[5 + i] == HighRegister(bar))
    }

    method ReadConfig(offset: nat) returns (value: nat)
      requires Valid() && offset % 4 == 0 && offset / 4 < |config|
      ensures value == config[offset / 4] < W32
    {
      value := config[offset / 4];
    }

    method WriteConfig(offset: nat, value: nat)
      requires Valid() && offset % 4 == 0 && offset / 4 < |config| && value < W32
      modifies this
      ensures Valid() && config == old(config)[offset / 4 := registers[offset / 4].After(value)]
    {
      assert RegisterOk(registers[offset / 4]) && Keeps(registers[offset / 4], value);
      config := config[offset / 4 := registers[offset / 4].After(value)];
    }

    /** `read_bar`: the low register, whether it is memory, and whether it is 64 bits wide. */
    method ReadBar(bar: nat) returns (r: Option<(nat, bool, bool)>)
      requires Valid()
      ensures r.None? <==> bar > 5
      ensures r.Some? ==> r.value.0 == config[4 + bar] && r.value.1 == (config[4 + bar] % 2 == 0)
                          && r.value.2 == (config[4 + bar] % 2 == 0 && config[4 + bar] / 2 % 4 == 2)
    {
      if bar > 5 {
        return None;
      }
      var low := ReadConfig(0x10 + bar * 4);
      TypeTests(low);
      return Some((low, And(low, 1) == 0, And(low, 1) == 0 && And(Shr(low, 1), 3) == 2));
    }

    method KindOfBar(bar: nat, ghost b: Bar) returns (isMem: bool, is64: bool)
      requires Valid() && bar <= 5 && IsBar(bar, b)
      ensures isMem == !b.IoBar? && is64 == b.WideBar?
    {
      var kind := ReadBar(bar);
      LowShows(b, config[4 + bar], config[4 + bar]);
      TypeOf(b, config[4 + bar]);
      isMem, is64 := kind.value.1, kind.value.2;
    }

    /** Write all ones, look, and write the old value back. */
    method ProbeRegister(offset: nat) returns (masked: nat)
      requires Valid() && offset % 4 == 0 && offset / 4 < |config|
      modifies this
      ensures Valid() && config == old(config)
      ensures masked == registers[offset / 4].After(W32 - 1) < W32
    {
      var orig := ReadConfig(offset);
      WriteConfig(offset, 0xFFFF_FFFF);
      masked := ReadConfig(offset);
      WriteConfig(offset, orig);
    }

    /** The second half of the probe of a 64-bit BAR. */
    method ProbeWide(offset: nat, maskedLow: nat, ghost b: Bar) returns (r: Option<nat>)
      requires Valid() && offset % 4 == 0 && offset / 4 + 1 < |config| && BarOk(b) && b.WideBar?
      requires registers[offset / 4 + 1] == HighRegister(b) && maskedLow == LowRegister(b).After(W32 - 1)
      modifies this
      ensures Valid() && config == old(config) && r == Some(Pow2(b.k))
    {
      var maskedHigh := ProbeRegister(offset + 4);
      var fullMask := Or(Shl(maskedHigh, 32), And(maskedLow, 0xFFFF_FFF0));
      WideSize(b, maskedHigh, maskedLow, fullMask);
      return MaskSize(fullMask, W64);
    }

    /** `probe_bar_size`: for every kind of BAR it returns the size, and afterwards the whole of
        configuration space is as it was. */
    method ProbeBarSize(bar: nat, ghost b: Bar) returns (r: Option<nat>)
      requires Valid() && (bar <= 5 ==> IsBar(bar, b))
      modifies this
      ensures Valid() && config == old(config)
      ensures r == if bar > 5 || b.NoBar? then None else Some(Pow2(b.k))
    {
      if bar > 5 {
        return None;
      }
      var offset := 0x10 + bar * 4;
      BarOffset(bar);
      var maskedLow := ProbeRegister(offset);
      var isMem, is64 := KindOfBar(bar, b);
      r := ProbeKind(offset, maskedLow, isMem, is64, b);
    }

    /** The rest of the probe, by the kind of BAR. */
    method ProbeKind(offset: nat, maskedLow: nat, isMem: bool, is64: bool, ghost b: Bar) returns (r: Option<nat>)
      requires Valid() && BarOk(b) && maskedLow == LowRegister(b).After(W32 - 1)
      requires isMem == !b.IoBar? && is64 == b.WideBar?
      requires offset % 4 == 0
      requires b.WideBar? ==> offset / 4 + 1 < |config| && registers[offset / 4 + 1] == HighRegister(b)
      modifies this
      ensures Valid() && config == old(config) && r == if b.NoBar? then None else Some(Pow2(b.k))
    {
      if !isMem {
        var mask := And(maskedLow, 0xFFFF_FFFC);
        IoSize(b, mask);
        r := MaskSize(mask, W32);
      } else if is64 {
        r := ProbeWide(offset, maskedLow, b);
      } else {
        var mask := And(maskedLow, 0xFFFF_FFF0);
        MemSize(b, mask);
        r := MaskSize(mask, W32);
      }
    }

    method ReadConfigU16(offset: nat) returns (value: nat)
      requires Valid() && offset < W16 && offset / 4 < |config|
      ensures value == Shr(config[offset / 4], 8 * (offset % 4)) % W16
    {
      OffsetSplits(offset);
      var word := ReadConfig(Aligned(offset));
      value := Shr(word, Shift(offset)) % W16;
    }

    method ReadConfigU8(offset: nat) returns (value: nat)
      requires Valid() && offset < W16 && offset / 4 < |config|
      ensures value == Field(config[offset / 4], 8 * (offset % 4), 8)
    {
      OffsetSplits(offset);
      ByteIsMod(Shr(config[offset / 4], 8 * (offset % 4)));
      var word := ReadConfig(Aligned(offset));
      value := Shr(word, Shift(offset)) % 0x100;
    }

    /** Writes back the dword with the two bytes at the offset replaced, or only its last byte if
        they would straddle its end. */
    method WriteConfigU16(offset: nat, value: nat)
      requires Valid() && offset < W16 && offset / 4 < |config| && value < W16
      modifies this
      ensures Valid()
      ensures config == old(config)[offset / 4 := registers[offset / 4].After(
                if offset % 4 != 3 then WithField(old(config)[offset / 4], 8 * (offset % 4), 16, value)
                else WithField(old(config)[offset / 4], 24, 8, value % 0x100))]
    {
      OffsetSplits(offset);
      var word := ReadConfig(Aligned(offset));
      var shift := Shift(offset);
      MergeWord(word, offset % 4, shift, value);
      ghost var field := if offset % 4 != 3 then WithField(word, 8 * (offset % 4), 16, value)
                         else WithField(word, 24, 8, value % 0x100);
      var merged := Or(And(word, Not(Shl(0xFFFF, shift) % W32, W32)), Shl(value, shift) % W32);
      assert merged == field;
      WriteConfig(Aligned(offset), merged);
    }

    method WriteConfigU8(offset: nat, value: nat)
      requires Valid() && offset < W16 && offset / 4 < |config| && value < 0x100
      modifies this
      ensures Valid()
      ensures config == old(config)[offset / 4 :=
                registers[offset / 4].After(WithField(old(config)[offset / 4], 8 * (offset % 4), 8, value))]
    {
      OffsetSplits(offset);
      var word := ReadConfig(Aligned(offset));
      var shift := Shift(offset);
      MergeByte(word, offset % 4, shift, value);
      var merged := Or(And(word, Not(Shl(0xFF, shift) % W32, W32)), Shl(value, shift) % W32);
      WriteConfig(Aligned(offset), merged);
    }

    /** In a register that keeps what is written, a 16-bit value is read back exactly when it did
        not straddle two dwords, or was only a byte; the other bytes of the dword never change. */
    method WriteAndReadU16(offset: nat, value: nat) returns (r: nat)
      requires Valid() && offset < W16 && offset / 4 < |config| && value < W16 && registers[offset / 4] == PLAIN
      modifies this
      ensures Valid() && (r == value <==> offset % 4 != 3 || value < 0x100)
      ensures forall j | 0 <= j < 4 && j != offset % 4 && j != offset % 4 + 1 ::
                Field(config[offset / 4], 8 * j, 8) == Field(old(config)[offset / 4], 8 * j, 8)
    {
      ghost var was := config[offset / 4];
      OffsetSplits(offset);
      MergeWord(was, offset % 4, 8 * (offset % 4), value);
      WriteConfigU16(offset, value);
      PlainAfter(if offset % 4 != 3 then WithField(was, 8 * (offset % 4), 16, value)
                 else WithField(was, 24, 8, value % 0x100));
      r := ReadConfigU16(offset);
      ReadBack(old(config)[offset / 4], offset % 4, value);
    }
  }

  /** The type bits that a BAR shows say which kind it is. */
  lemma TypeOf(b: Bar, low: nat)
    requires if b.IoBar? then low % 4 == 1 else low % 16 == Flags(b)
    ensures (low % 2 == 0) == !b.IoBar? && (low % 2 == 0 && low / 2 % 4 == 2) == b.WideBar?
  {
    FlagBits(b);
    LowBits(low, b.IoBar?, Flags(b));
  }

  lemma FlagBits(b: Bar)
    ensures !b.IoBar? ==> Flags(b) % 4 == 0 && (Flags(b) % 8 == 4) == b.WideBar?
  {
  }

  lemma LowBits(low: nat, io: bool, flags: nat)
    requires if io then low % 4 == 1 else low % 16 == flags && flags % 4 == 0
    ensures (low % 2 == 0) == !io
    ensures !io ==> (low / 2 % 4 == 2) == (flags % 8 == 4)
  {
    if io {
      DivModUnique(low, 2, 2 * (low / 4), 1);
    } else {
      var q, h := low / 16, flags / 4;
      assert low == 16 * q + 4 * h;
      DivModUnique(low, 2, 8 * q + 2 * h, 0);
      DivModUnique(8 * q + 2 * h, 4, 2 * q + h / 2, 2 * (h % 2));
      DivModUnique(flags, 8, h / 2, 4 * (h % 2));
    }
  }

  lemma IoSize(b: Bar, mask: nat)
    requires BarOk(b) && b.IoBar? && mask == And(LowRegister(b).After(W32 - 1), 0xFFFF_FFFC)
    ensures mask < W32 && MaskSize(mask, W32) == Some(Pow2(b.k))
  {
    LowMask(b);
    Complement(b.k);
  }

  lemma MemSize(b: Bar, mask: nat)
    requires BarOk(b) && (b.MemBar? || b.NoBar?) && mask == And(LowRegister(b).After(W32 - 1), 0xFFFF_FFF0)
    ensures mask < W32 && MaskSize(mask, W32) == if b.NoBar? then None else Some(Pow2(b.k))
  {
    if b.NoBar? {
      AndZero(W32 - 1);
      assert And(0, 0xFFFF_FFF0) == 0;
    } else {
      LowMask(b);
      Complement(b.k);
    }
  }

  lemma WideSize(b: Bar, high: nat, low: nat, mask: nat)
    requires BarOk(b) && b.WideBar?
    requires high == HighRegister(b).After(W32 - 1) && low == LowRegister(b).After(W32 - 1)
    requires mask == Or(Shl(high, 32), And(low, 0xFFFF_FFF0))
    ensures mask < W64 && MaskSize(mask, W64) == Some(Pow2(b.k))
  {
    LowMask(b);
    WideMask(b);
    Complement(b.k);
  }

  lemma ByteIsMod(x: nat)
    ensures x % 0x100 == Low(x, 8)
  {
    assert Pow2(8) == 0x100;
    LowIsMod(x, 8);
  }

  lemma TypeTests(low: nat)
    ensures And(low, 1) == low % 2 && And(Shr(low, 1), 3) == low / 2 % 4
  {
    assert Pow2(1) == 2 && Pow2(2) == 4;
    AndKeepsLow(low, 1);
    LowIsMod(low, 1);
    AndKeepsLow(low / 2, 2);
    LowIsMod(low / 2, 2);
    assert Shr(low, 1) == Shr(low / 2, 0);
  }

  // ---- Words and bytes of a register ----

  /** `offset & !3` and `(offset & 3) * 8` */
  function Aligned(offset: nat): nat
    requires offset < W16
  {
    And(offset, Not(3, W16))
  }

  function Shift(offset: nat): nat { And(offset, 3) * 8 }

  lemma OffsetSplits(offset: nat)
    requires offset < W16
    ensures Aligned(offset) == offset - offset % 4 && Shift(offset) == 8 * (offset % 4)
    ensures Aligned(offset) % 4 == 0 && Aligned(offset) / 4 == offset / 4
  {
    Words();
    AndClearsLow(offset, Not(3, W16), 16, 2);
    AndKeepsLow(offset, 2);
    LowIsMod(offset, 2);
    RoundDown(offset, 4);
  }

  /** `(was & !(ones << shift)) | (value << shift)` on 32 bits, with `ones` = 2^n - 1. */
  function Merge(was: nat, shift: nat, n: nat, value: nat): nat {
    Or(And(was, Not(Shl(Pow2(n) - 1, shift) % W32, W32)), Shl(value, shift) % W32)
  }

  lemma MergeSetsField(was: nat, shift: nat, n: nat, value: nat)
    requires was < W32 && shift + n <= 32 && value < Pow2(n)
    ensures Merge(was, shift, n, value) == WithField(was, shift, n, value) < W32
  {
    Word32();
    ShiftedFits(Pow2(n) - 1, n, shift);
    ShiftedFits(value, n, shift);
    WithFieldFits(was, 32, shift, n, value);
    MaskAndFill(was, shift, n, value, Not(Shl(Pow2(n) - 1, shift), W32));
  }

  lemma ShiftedFits(v: nat, n: nat, shift: nat)
    requires v < Pow2(n) && shift + n <= 32
    ensures Shl(v, shift) < W32 && Shl(v, shift) % W32 == Shl(v, shift)
  {
    Word32();
    ShlFits(v, n, shift, 32);
    SmallMod(Shl(v, shift), W32);
  }

  lemma MaskAndFill(was: nat, shift: nat, n: nat, value: nat, mask: nat)
    requires was < W32 && shift + n <= 32 && value < Pow2(n)
    requires Shl(Pow2(n) - 1, shift) < W32 && mask == Not(Shl(Pow2(n) - 1, shift), W32)
    ensures Or(And(was, mask), Shl(value, shift)) == WithField(was, shift, n, value)
  {
    Word32();
    AndClearsField(was, mask, 32, shift, n);
    FieldCleared(was, shift, n, And(was, mask));
    OrFillsField(And(was, mask), shift, n, value);
  }

  lemma FieldCleared(was: nat, shift: nat, n: nat, cleared: nat)
    requires cleared == was - Shl(Field(was, shift, n), shift)
    ensures Field(cleared, shift, n) == 0
  {
    ShlZero(shift);
    FieldOfWithField(was, shift, n, 0);
  }

  lemma SmallMod(x: nat, d: nat)
    requires x < d
    ensures x % d == x
  {
  }

  lemma MergeByte(was: nat, byte: nat, shift: nat, value: nat)
    requires was < W32 && byte < 4 && shift == 8 * byte && value < 0x100
    ensures Shl(0xFF, shift) % W32 < W32
    ensures Or(And(was, Not(Shl(0xFF, shift) % W32, W32)), Shl(value, shift) % W32)
            == WithField(was, 8 * byte, 8, value) < W32
  {
    assert Pow2(8) == 0x100;
    MergeSetsField(was, shift, 8, value);
  }

  lemma MergeWord(was: nat, byte: nat, shift: nat, value: nat)
    requires was < W32 && byte < 4 && shift == 8 * byte && value < W16
    ensures Shl(0xFFFF, shift) % W32 < W32
    ensures Or(And(was, Not(Shl(0xFFFF, shift) % W32, W32)), Shl(value, shift) % W32)
            == (if byte < 3 then WithField(was, 8 * byte, 16, value) else WithField(was, 24, 8, value % 0x100)) < W32
  {
    assert Pow2(8) == 0x100 && Pow2(16) == W16;
    if byte < 3 {
      MergeSetsField(was, shift, 16, value);
    } else {
      TopByteOnly(0xFFFF);
      TopByteOnly(value);
      TopByteOnly(0xFF);
      MergeSetsField(was, 24, 8, value % 0x100);
      SmallShift(0xFF);
      SmallShift(value % 0x100);
    }
  }

  /** Shifted by 24, only the low byte stays in the word. */
  lemma TopByteOnly(v: nat)
    ensures Shl(v, 24) % W32 == Shl(v % 0x100, 24)
  {
    Words();
    ShlIsProduct(v, 24);
    ShlIsProduct(v % 0x100, 24);
    DivModUnique(v * 0x100_0000, W32, v / 0x100, v % 0x100 * 0x100_0000);
  }

  lemma SmallShift(v: nat)
    requires v < 0x100
    ensures Shl(v, 24) % W32 == Shl(v, 24)
  {
    TopByteOnly(v);
  }

  lemma ReadBack(was: nat, byte: nat, value: nat)
    requires was < W32 && byte < 4 && value < W16
    ensures var now := if byte < 3 then WithField(was, 8 * byte, 16, value) else WithField(was, 24, 8, value % 0x100);
            && (Shr(now, 8 * byte) % W16 == value <==> byte < 3 || value < 0x100)
            && forall j | 0 <= j < 4 && j != byte && j != byte + 1 :: Field(now, 8 * j, 8) == Field(was, 8 * j, 8)
  {
    assert Pow2(8) == 0x100 && Pow2(16) == W16;
    var n, v := if byte < 3 then 16 else 8, if byte < 3 then value else value % 0x100;
    var now := WithField(was, 8 * byte, n, v);
    FieldOfWithField(was, 8 * byte, n, v);
    LowIsMod(Shr(now, 8 * byte), n);
    forall j | 0 <= j < 4 && j != byte && j != byte + 1
      ensures Field(now, 8 * j, 8) == Field(was, 8 * j, 8)
    {
      OtherFields(was, 8 * byte, n, v, 8 * j, 8);
    }
    if byte == 3 {
      TopByte(was, v);
    }
  }

  lemma {:induction false} ShrFits(x: nat, k: nat, n: nat)
    requires x < Pow2(k + n)
    ensures Shr(x, k) < Pow2(n)
    decreases k
  {
    if k == 0 {
    } else {
      ShrFits(x / 2, k - 1, n);
    }
  }

  /** Nothing is above the top byte of a word. */
  lemma TopByte(was: nat, v: nat)
    requires was < W32 && v < Pow2(8) == 0x100
    ensures Shr(WithField(was, 24, 8, v), 24) % W16 == v
  {
    Word32();
    var now := WithField(was, 24, 8, v);
    WithFieldFits(was, 32, 24, 8, v);
    FieldOfWithField(was, 24, 8, v);
    ShrFits(now, 24, 8);
    LowOfSmall(Shr(now, 24), 8);
    SmallMod(Shr(now, 24), W16);
  }

  /** For example, 0x1234 written at the last byte reads back as 0x34. */
  lemma StraddlingWriteIsCut(was: nat)
    requires was < W32
    ensures Shr(WithField(was, 24, 8, 0x1234 % 0x100), 24) % W16 == 0x34
  {
    assert Pow2(8) == 0x100;
    TopByte(was, 0x34);
  }
}
