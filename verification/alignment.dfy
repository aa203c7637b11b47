/**
 The per-target constants the traversal depends on, and the address model.

 A vector type `V` has a width `V::Size` (lanes per bulk window) and a
 required alignment `V::MemoryAlignment` (a power of two, in bytes); an
 element occupies `sizeof(T)` bytes. Element `i` of an array whose first
 element sits at byte address `base` lives at `base + i * elemSize`.
 */
module Alignment {

  /** True of 1, 2, 4, 8, ... */
  predicate IsPowerOfTwo(n: nat)
    decreases n
  {
    n == 1 || (n >= 2 && n % 2 == 0 && IsPowerOfTwo(n / 2))
  }

  /** `width` is `V::Size`, `alignment` is `V::MemoryAlignment`, `elemSize` is `sizeof(T)`. */
  datatype Target = Target(width: nat, alignment: nat, elemSize: nat)
  {
    /** A bulk window holds at least one lane, the boundary is a power of two,
        and stepping over one bulk window keeps an aligned address aligned. */
    predicate Valid() {
      width >= 1 && elemSize >= 1 && IsPowerOfTwo(alignment)
      && (width * elemSize) % alignment == 0
    }
  }

  /** Byte address of element `i`. */
  function Address(t: Target, base: nat, i: nat): nat {
    base + i * t.elemSize
  }

  /** The source tests `addr & (MemoryAlignment - 1)`; for a power-of-two
      boundary that is zero exactly when `addr % MemoryAlignment` is. */
  predicate Aligned(t: Target, base: nat, i: nat)
    requires t.Valid()
  {
    Address(t, base, i) % t.alignment == 0
  }

  /** Advancing an aligned position by one bulk window (`first += V::Size`)
      lands on an aligned position again. */
  lemma BulkStrideKeepsAlignment(t: Target, base: nat, i: nat)
    requires t.Valid() && Aligned(t, base, i)
    ensures Aligned(t, base, i + t.width)
  {
    var A := t.alignment;
    var x := Address(t, base, i);
    var y := t.width * t.elemSize;
    assert Address(t, base, i + t.width) == x + y by {
      assert (i + t.width) * t.elemSize == i * t.elemSize + t.width * t.elemSize;
    }
    MultiplesAdd(x, y, A);
  }

  /** The sum of two multiples of `A` is a multiple of `A`. */
  lemma MultiplesAdd(x: nat, y: nat, A: nat)
    requires A > 0 && x % A == 0 && y % A == 0
    ensures (x + y) % A == 0
  {
    var p, q := x / A, y / A;
    var d, r := (x + y) / A, (x + y) % A;
    assert x == p * A && y == q * A;
    assert x + y == d * A + r && 0 <= r < A;
    assert r == (p + q - d) * A;
    MultipleBounds(p + q - d, A);
  }

  /** A nonzero multiple of `A` is at least `A` away from zero. */
  lemma MultipleBounds(k: int, A: int)
    requires A > 0
    ensures k >= 1 ==> k * A >= A
    ensures k <= -1 ==> k * A <= -A
  {
    if k >= 1 {
      assert k * A == (k - 1) * A + A;
    } else if k <= -1 {
      assert k * A == -((-k - 1) * A) - A;
    }
  }

  /** Quotient and remainder are determined by `x == q * w + r` with `0 <= r < w`. */
  lemma DivModUnique(x: nat, w: nat, q: nat, r: nat)
    requires w > 0 && x == q * w + r && r < w
    ensures x / w == q && x % w == r
  {
    var d := x / w;
    assert x == d * w + x % w;
    assert (q - d) * w == x % w - r;
    MultipleBounds(q - d, w);
  }

  /** Any multiple of a multiple of `A` is a multiple of `A`. */
  lemma MulMod(k: nat, x: nat, A: nat)
    requires A > 0 && x % A == 0
    ensures (k * x) % A == 0
  {
    var c := x / A;
    assert k * x == (k * c) * A + 0;
    DivModUnique(k * x, A, k * c, 0);
  }

  /** The first multiple of `w` at or after `n` is less than `w` away. */
  lemma NextMultiple(n: nat, w: nat)
    requires w >= 1
    ensures n <= ((n + w - 1) / w) * w < n + w
  {
    DivModParts(n + w - 1, w);
  }

  /** In an array starting at a multiple of `sizeof(T)`, the element whose index from address 0
      is a multiple of `V::Size` is aligned. */
  lemma WholeWindowsAligned(t: Target, base: nat, q: nat, k: nat)
    requires t.Valid() && base % t.elemSize == 0 && base / t.elemSize + q == k * t.width
    ensures Aligned(t, base, q)
  {
    var E := t.elemSize;
    DivModParts(base, E);
    assert Address(t, base, q) == (base / E + q) * E;
    assert (k * t.width) * E == k * (t.width * E);
    MulMod(k, t.width * E, t.alignment);
  }

  /** A length splits into whole bulk windows and a remainder shorter than one window. */
  lemma DivModParts(n: nat, w: nat)
    requires w > 0
    ensures n == (n / w) * w + n % w && n % w < w
  {
  }

  /** Removing one bulk window from the remaining length lowers the quotient by one. */
  lemma DivStep(x: nat, w: nat)
    requires w >= 1 && x >= w
    ensures x / w == (x - w) / w + 1 && x % w == (x - w) % w
  {
    var q, r := (x - w) / w, (x - w) % w;
    assert x == (q + 1) * w + r;
    DivModUnique(x, w, q + 1, r);
  }
}
