/**
 Two callables of the kind the library's documentation shows: a running sum
 carried through the immutable overload, and an in-place scaling through the
 mutating overload; plus one traversal written out window by window.
 */
module Examples {
  import opened Alignment
  import opened Traversal
  import opened Semantics
  import opened Algorithms

  /** The sum of the lanes, first lane first. */
  function Sum(w: seq<int>): int
    decreases |w|
  {
    if w == [] then 0 else w[0] + Sum(w[1..])
  }

  /** A callable that adds the lanes of each window to its running total. */
  function AddWindow(s: int, w: seq<int>): (int, seq<int>) {
    (s + Sum(w), w)
  }

  /** The same callable, one element at a time. */
  function AddElement(s: int, x: int): (int, int) {
    (s + x, x)
  }

  /** A callable that multiplies every lane by `k` (`v *= factor`). */
  function ScaleWindow(k: int): WindowOp<int> {
    (s: int, w: seq<int>) => (s, seq(|w|, j requires 0 <= j < |w| => k * w[j]))
  }

  /** The same callable, one element at a time. */
  function ScaleElement(k: int): ElementOp<int> {
    (s: int, x: int) => (s, k * x)
  }

  /** Adding lane by lane is adding the window's sum. */
  lemma {:induction false} AddLanes(s: int, w: seq<int>)
    ensures Lanes(AddElement, s, w) == AddWindow(s, w)
    decreases |w|
  {
    if w != [] {
      AddLanes(s + w[0], w[1..]);
      assert [w[0]] + w[1..] == w;
    }
  }

  /** `AddWindow` is elementwise. */
  lemma AddWindowIsLanewise()
    ensures Lanewise(AddWindow, AddElement)
  {
    forall s: int, w: seq<int> ensures AddWindow(s, w) == Lanes(AddElement, s, w) {
      AddLanes(s, w);
    }
  }

  /** Scaling lane by lane is scaling the window. */
  lemma {:induction false} ScaleLanes(k: int, s: int, w: seq<int>)
    ensures Lanes(ScaleElement(k), s, w) == ScaleWindow(k)(s, w)
    decreases |w|
  {
    if w != [] {
      ScaleLanes(k, s, w[1..]);
      var rest := ScaleWindow(k)(s, w[1..]).1;
      var whole := ScaleWindow(k)(s, w).1;
      assert forall j :: 0 <= j < |w| ==> whole[j] == ([k * w[0]] + rest)[j];
      assert whole == [k * w[0]] + rest;
      assert Lanes(ScaleElement(k), s, w) == (s, [k * w[0]] + rest);
    }
  }

  /** `ScaleWindow(k)` is elementwise. */
  lemma ScaleWindowIsLanewise(k: int)
    ensures Lanewise(ScaleWindow(k), ScaleElement(k))
  {
    forall s: int, w: seq<int> ensures ScaleWindow(k)(s, w) == Lanes(ScaleElement(k), s, w) {
      ScaleLanes(k, s, w);
    }
  }

  /** The plain loop of `AddElement` over `[i, hi)` adds `a[i..hi]` to the total. */
  lemma {:induction false} NaiveAdds(s: int, a: seq<int>, i: nat, hi: nat)
    requires i <= hi <= |a|
    ensures Naive(AddElement, false, s, a, i, hi).0 == s + Sum(a[i..hi])
    decreases hi - i
  {
    if i != hi {
      NaiveAdds(s + a[i], a, i + 1, hi);
      assert a[i..hi][1..] == a[i + 1..hi];
    }
  }

  /** The plain loop of `ScaleElement(k)` over `[i, hi)` multiplies exactly those elements by `k`. */
  lemma {:induction false} NaiveScales(k: int, s: int, a: seq<int>, i: nat, hi: nat)
    requires i <= hi <= |a|
    ensures var r := Naive(ScaleElement(k), true, s, a, i, hi).1;
      forall p :: 0 <= p < |a| ==> r[p] == if i <= p < hi then k * a[p] else a[p]
    decreases hi - i
  {
    if i != hi {
      NaiveScales(k, s, a[i := k * a[i]], i + 1, hi);
    }
  }

  /** The running sum threaded through the immutable `simd_for_each` is the sum of the range,
      whatever the alignment of the array and the vector width. */
  method SimdSum(a: array<int>, first: nat, last: nat, base: nat, t: Target) returns (total: int)
    requires t.Valid() && first <= last <= a.Length
    ensures total == Sum(a[first..last])
  {
    ghost var trace;
    total, trace := SimdForEachImmutable(a, first, last, base, t, AddWindow, 0);
    AddWindowIsLanewise();
    ScheduleIsNaive(t, base, AddWindow, AddElement, false, 0, a[..], first, last);
    NaiveAdds(0, a[..], first, last);
    assert a[..][first..last] == a[first..last];
  }

  /** `simd_for_each(first, last, [&](auto &v) { v *= k; })` multiplies every element of the
      range by `k` and leaves the rest of the array alone. */
  method SimdScale(a: array<int>, first: nat, last: nat, base: nat, t: Target, k: int)
    requires t.Valid() && first <= last <= a.Length
    modifies a
    ensures forall p :: 0 <= p < a.Length ==> a[p] == if first <= p < last then k * old(a[p]) else old(a[p])
  {
    ScaleWindowIsLanewise(k);
    ScheduleIsNaive(t, base, ScaleWindow(k), ScaleElement(k), true, 0, a[..], first, last);
    NaiveScales(k, 0, a[..], first, last);
    var s;
    ghost var trace;
    s, trace := SimdForEachMutating(a, first, last, base, t, ScaleWindow(k), 0);
  }

  /** Four 4-byte lanes with 16-byte alignment, the array starting at byte 8, range `[0, 11)`:
      two scalar head windows reach byte 16, two bulk windows follow, one tail window ends it. */
  lemma ScheduleExample()
    ensures Target(4, 16, 4).Valid()
    ensures Schedule(Target(4, 16, 4), 8, 0, 11)
         == [Window(Head, 0, 1), Window(Head, 1, 1), Window(Body, 2, 4), Window(Body, 6, 4), Window(Tail, 10, 1)]
  {
    var t := Target(4, 16, 4);
    assert IsPowerOfTwo(16) by {
      assert IsPowerOfTwo(1) && IsPowerOfTwo(2) && IsPowerOfTwo(4) && IsPowerOfTwo(8);
    }
    assert TailFrom(10, 11) == [Window(Tail, 10, 1)] by {
      assert TailFrom(11, 11) == [];
    }
    assert BodyFrom(t, 10, 11) == TailFrom(10, 11);
    assert BodyFrom(t, 6, 11) == [Window(Body, 6, 4)] + BodyFrom(t, 10, 11);
    assert BodyFrom(t, 2, 11) == [Window(Body, 2, 4)] + BodyFrom(t, 6, 11);
    assert Aligned(t, 8, 2);
    assert HeadFrom(t, 8, 2, 11) == BodyFrom(t, 2, 11);
    assert HeadFrom(t, 8, 1, 11) == [Window(Head, 1, 1)] + HeadFrom(t, 8, 2, 11);
    assert HeadFrom(t, 8, 0, 11) == [Window(Head, 0, 1)] + HeadFrom(t, 8, 1, 11);
  }
}
