// kernel/src/allocator/mod.rs: `align_up`, and `core::alloc::Layout` as the three
// allocators receive it.  Plain `+` and `-` on `usize` are checked, as in the default
// build of the kernel: an overflow is a panic.
module Alignment {
  import opened Wrappers
  import opened Bits

  /** `(addr + align - 1) & !(align - 1)` */
  function AlignUp(addr: nat, align: nat): Outcome<nat>
    requires 0 < align < W64
  {
    if addr + align >= W64 then Panicked
    else Returned(And(addr + align - 1, Not(align - 1, W64)))
  }

  /** The smallest multiple of `align` that is not below `addr`. */
  ghost predicate IsLeastMultiple(m: nat, addr: nat, align: nat)
    requires align > 0
  {
    addr <= m && m % align == 0
    && forall n: nat | addr <= n && n % align == 0 :: m <= n
  }

  /** `align_up` returns exactly when `addr + align` is representable, and then it returns
      the least multiple. */
  lemma AlignUpIsLeastMultiple(addr: nat, align: nat)
    requires IsPow2(align) && align < W64
    ensures AlignUp(addr, align).Returned? <==> addr + align < W64
    ensures AlignUp(addr, align).Returned? ==>
              var m := AlignUp(addr, align).value;
              IsLeastMultiple(m, addr, align) && m < addr + align
  {
    if addr + align < W64 {
      MaskRoundsDown(addr + align - 1, align);
      var m := AlignUp(addr, align).value;
      forall n: nat | addr <= n && n % align == 0
        ensures m <= n
      {
        LeastMultiple(m, n, align);
      }
    }
  }

  lemma MaskRoundsDown(x: nat, align: nat)
    requires IsPow2(align) && align < W64 && x < W64
    ensures var m := And(x, Not(align - 1, W64)); m % align == 0 && m <= x < m + align
  {
    var k: nat :| Pow2(k) == align;
    Words();
    if k > 64 {
      Pow2Monotone(64, k);
      assert false;
    }
    AndClearsLow(x, Not(align - 1, W64), 64, k);
    LowIsMod(x, k);
    RoundDown(x, align);
  }

  lemma LeastMultiple(m: nat, n: nat, align: nat)
    requires align > 0 && m % align == 0 && n % align == 0 && m < n + align
    ensures m <= n
  {
    var i, j := m / align, n / align;
    assert m == i * align && n == j * align;
    if i > j {
      MulAtLeast(i - j, align);
    }
  }

  /** An aligned address is left alone. */
  lemma AlignUpOfAligned(addr: nat, align: nat)
    requires IsPow2(align) && addr % align == 0 && addr + align < W64
    ensures AlignUp(addr, align) == Returned(addr)
  {
    AlignUpIsLeastMultiple(addr, align);
  }

  const MAX_LAYOUT := 0x8000_0000_0000_0000 // isize::MAX + 1

  datatype Layout = Layout(size: nat, align: nat) {
    /** What `Layout::from_size_align` guarantees. */
    predicate Valid() {
      IsPow2(align) && align <= MAX_LAYOUT && size <= MAX_LAYOUT - align
    }
  }

  lemma Pow2Order(a: nat, b: nat)
    requires IsPow2(a) && IsPow2(b) && a <= b
    ensures b % a == 0
    ensures forall x: nat | x % b == 0 :: x % a == 0
  {
    var i: nat :| Pow2(i) == a;
    var j: nat :| Pow2(j) == b;
    if i > j {
      Pow2Monotone(j, i);
      assert a == b;
      assert b % a == 0 by {
        DivModUnique(b, a, 1, 0);
      }
    } else {
      DivModUnique(b, b, 1, 0);
      Pow2Divides(b, i, j);
      forall x: nat | x % b == 0
        ensures x % a == 0
      {
        Pow2Divides(x, i, j);
      }
    }
  }
}
