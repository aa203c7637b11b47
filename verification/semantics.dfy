/**
 What the callable does to its carried state and to the array, window by window.

 The user's callable `f` is modelled as a function from its carried state and
 the lanes of one window to its new state and the lanes as it left them. The
 immutable overloads ignore the lanes it gives back; the mutating overloads
 store them back over the window (`tmp.store(...)`).
 */
module Semantics {
  import opened Alignment
  import opened Traversal

  /** The callable on one (scalar or bulk) window. */
  type WindowOp<!S> = (S, seq<int>) -> (S, seq<int>)

  /** The callable on one element, as a plain per-element loop would call it. */
  type ElementOp<!S> = (S, int) -> (S, int)

  /** A vector register's store writes back exactly as many lanes as it loaded. */
  ghost predicate KeepsWidth<S(!new)>(f: WindowOp<S>) {
    forall s: S, w: seq<int> :: |f(s, w).1| == |w|
  }

  /** `tmp.store(&a[i])`: the lanes `out` overwrite `a[i .. i + |out|)`. */
  function Store(a: seq<int>, i: nat, out: seq<int>): (r: seq<int>)
    requires i + |out| <= |a|
    ensures |r| == |a|
  {
    a[..i] + out + a[i + |out|..]
  }

  /** After the store, `out` occupies `[i, i + |out|)` and every other position is as it was. */
  lemma StoreAt(a: seq<int>, i: nat, out: seq<int>)
    requires i + |out| <= |a|
    ensures forall j :: 0 <= j < |a| ==> Store(a, i, out)[j] == if i <= j < i + |out| then out[j - i] else a[j]
  {
  }

  /** One load / call / (store) cycle on window `w`. */
  function Step<S(!new)>(f: WindowOp<S>, mutating: bool, s: S, a: seq<int>, w: Window): (r: (S, seq<int>))
    requires w.start + w.width <= |a|
    requires mutating ==> KeepsWidth(f)
    ensures |r.1| == |a|
  {
    var (s', out) := f(s, a[w.start .. w.start + w.width]);
    if mutating then (s', Store(a, w.start, out)) else (s', a)
  }

  /** Every window lies within an array of length `n`. */
  predicate InBounds(ws: seq<Window>, n: nat)
    decreases |ws|
  {
    ws == [] || (ws[0].start + ws[0].width <= n && InBounds(ws[1..], n))
  }

  /** The callable's state and the array after visiting the windows `ws` in order. */
  function Run<S(!new)>(f: WindowOp<S>, mutating: bool, s: S, a: seq<int>, ws: seq<Window>): (r: (S, seq<int>))
    requires InBounds(ws, |a|)
    requires mutating ==> KeepsWidth(f)
    ensures |r.1| == |a|
    decreases |ws|
  {
    if ws == [] then (s, a)
    else
      var (s', a') := Step(f, mutating, s, a, ws[0]);
      Run(f, mutating, s', a', ws[1..])
  }

  /** The plain loop `for (i = lo; i != hi; ++i) f(a[i]);` with an element callable; the
      element type is left open so that the sequential fallback can use it too. */
  function Naive<S(!new), T>(g: (S, T) -> (S, T), mutating: bool, s: S, a: seq<T>, i: nat, hi: nat): (r: (S, seq<T>))
    requires i <= hi <= |a|
    ensures |r.1| == |a|
    decreases hi - i
  {
    if i == hi then (s, a)
    else
      var (s', x) := g(s, a[i]);
      Naive(g, mutating, s', if mutating then a[i := x] else a, i + 1, hi)
  }

  /** A window callable applied lane by lane, first lane first, with the element callable `g`. */
  function Lanes<S(!new)>(g: ElementOp<S>, s: S, w: seq<int>): (r: (S, seq<int>))
    ensures |r.1| == |w|
    decreases |w|
  {
    if w == [] then (s, [])
    else
      var (s1, x) := g(s, w[0]);
      var (s2, rest) := Lanes(g, s1, w[1..]);
      (s2, [x] + rest)
  }

  /** `f` is elementwise: on any window it acts as `g` on each lane in turn. */
  ghost predicate Lanewise<S(!new)>(f: WindowOp<S>, g: ElementOp<S>) {
    forall s: S, w: seq<int> :: f(s, w) == Lanes(g, s, w)
  }

  /** Windows that tile `[lo, hi)` are within any array of length at least `hi`. */
  lemma {:induction false} TilesInBounds(ws: seq<Window>, lo: nat, hi: nat, n: nat)
    requires Tiles(ws, lo, hi) && hi <= n
    ensures InBounds(ws, n)
    decreases |ws|
  {
    if ws != [] {
      TilesInBounds(ws[1..], lo + ws[0].width, hi, n);
    }
  }

  /** Visiting `[w] + rest` is one step on `w`, then `rest`. */
  lemma RunCons<S(!new)>(f: WindowOp<S>, mutating: bool, s: S, a: seq<int>, w: Window, rest: seq<Window>)
    requires InBounds([w] + rest, |a|)
    requires mutating ==> KeepsWidth(f)
    ensures w.start + w.width <= |a| && InBounds(rest, |a|)
    ensures var r := Step(f, mutating, s, a, w);
      Run(f, mutating, s, a, [w] + rest) == Run(f, mutating, r.0, r.1, rest)
  {
    assert ([w] + rest)[1..] == rest;
  }

  /** Visiting `ws + [w]` is visiting `ws`, then one step on `w`. */
  lemma {:induction false} RunSnoc<S(!new)>(f: WindowOp<S>, mutating: bool, s: S, a: seq<int>, ws: seq<Window>, w: Window)
    requires InBounds(ws, |a|) && w.start + w.width <= |a|
    requires mutating ==> KeepsWidth(f)
    ensures InBounds(ws + [w], |a|)
    ensures var r := Run(f, mutating, s, a, ws);
      Run(f, mutating, s, a, ws + [w]) == Step(f, mutating, r.0, r.1, w)
    decreases |ws|
  {
    if ws == [] {
      assert [] + [w] == [w];
      assert [w][1..] == [];
    } else {
      var r := Step(f, mutating, s, a, ws[0]);
      assert (ws + [w])[0] == ws[0];
      assert (ws + [w])[1..] == ws[1..] + [w];
      RunSnoc(f, mutating, r.0, r.1, ws[1..], w);
    }
  }

  /** Visiting `ws1 + ws2` is visiting `ws1`, then `ws2` from where `ws1` left off. */
  lemma {:induction false} RunAppend<S(!new)>(f: WindowOp<S>, mutating: bool, s: S, a: seq<int>, ws1: seq<Window>, ws2: seq<Window>)
    requires InBounds(ws1, |a|) && InBounds(ws2, |a|)
    requires mutating ==> KeepsWidth(f)
    ensures InBounds(ws1 + ws2, |a|)
    ensures var r := Run(f, mutating, s, a, ws1);
      Run(f, mutating, s, a, ws1 + ws2) == Run(f, mutating, r.0, r.1, ws2)
    decreases |ws1|
  {
    if ws1 == [] {
      assert [] + ws2 == ws2;
    } else {
      var r := Step(f, mutating, s, a, ws1[0]);
      assert (ws1 + ws2)[0] == ws1[0];
      assert (ws1 + ws2)[1..] == ws1[1..] + ws2;
      RunAppend(f, mutating, r.0, r.1, ws1[1..], ws2);
    }
  }

  // ---------------------------------------------------------------------------

  /** Without the store step the array is never written, whatever the windows. */
  lemma {:induction false} ImmutableRunKeepsArray<S(!new)>(f: WindowOp<S>, s: S, a: seq<int>, ws: seq<Window>)
    requires InBounds(ws, |a|)
    ensures Run(f, false, s, a, ws).1 == a
    decreases |ws|
  {
    if ws != [] {
      var (s', _) := f(s, a[ws[0].start .. ws[0].start + ws[0].width]);
      ImmutableRunKeepsArray(f, s', a, ws[1..]);
    }
  }

  /** Windows that tile `[lo, hi)` leave every position outside `[lo, hi)` as it was. */
  lemma {:induction false} RunFrame<S(!new)>(f: WindowOp<S>, mutating: bool, s: S, a: seq<int>, ws: seq<Window>, lo: nat, hi: nat)
    requires Tiles(ws, lo, hi) && hi <= |a|
    requires mutating ==> KeepsWidth(f)
    ensures InBounds(ws, |a|)
    ensures forall p :: 0 <= p < |a| && !(lo <= p < hi) ==> Run(f, mutating, s, a, ws).1[p] == a[p]
    decreases |ws|
  {
    if ws != [] {
      var w := ws[0];
      var (s', a') := Step(f, mutating, s, a, w);
      RunFrame(f, mutating, s', a', ws[1..], lo + w.width, hi);
    }
  }

  /** `Naive` over `[lo, hi)` is `Naive` over `[lo, mid)` followed by `Naive` over `[mid, hi)`. */
  lemma {:induction false} NaiveSplit<S(!new), T>(g: (S, T) -> (S, T), mutating: bool, s: S, a: seq<T>, lo: nat, mid: nat, hi: nat)
    requires lo <= mid <= hi <= |a|
    ensures var (s1, a1) := Naive(g, mutating, s, a, lo, mid);
      Naive(g, mutating, s, a, lo, hi) == Naive(g, mutating, s1, a1, mid, hi)
    decreases mid - lo
  {
    if lo != mid {
      var (s', x) := g(s, a[lo]);
      NaiveSplit(g, mutating, s', if mutating then a[lo := x] else a, lo + 1, mid, hi);
    }
  }

  /** Writing `x` at `i` and then the lanes `rest` after it is one store of `[x] + rest`. */
  lemma StoreCons(a: seq<int>, i: nat, x: int, rest: seq<int>)
    requires i + 1 + |rest| <= |a|
    ensures Store(a[i := x], i + 1, rest) == Store(a, i, [x] + rest)
  {
    var l, r := Store(a[i := x], i + 1, rest), Store(a, i, [x] + rest);
    StoreAt(a[i := x], i + 1, rest);
    StoreAt(a, i, [x] + rest);
    assert forall j :: 0 <= j < |a| ==> l[j] == r[j];
  }

  /** Applying `g` lane by lane to the loaded window `a[i..hi)` and storing the lanes back
      is the plain loop over `[i, hi)`. */
  lemma {:induction false} LanesAreNaive<S(!new)>(g: ElementOp<S>, mutating: bool, s: S, a: seq<int>, i: nat, hi: nat)
    requires i <= hi <= |a|
    ensures var r := Lanes(g, s, a[i..hi]);
      Naive(g, mutating, s, a, i, hi) == (r.0, if mutating then Store(a, i, r.1) else a)
    decreases hi - i
  {
    if i != hi {
      var (s1, x) := g(s, a[i]);
      var a' := if mutating then a[i := x] else a;
      assert a[i..hi][1..] == a'[i + 1..hi];
      LanesAreNaive(g, mutating, s1, a', i + 1, hi);
      var (s2, rest) := Lanes(g, s1, a'[i + 1..hi]);
      assert Lanes(g, s, a[i..hi]) == (s2, [x] + rest);
      assert Naive(g, mutating, s, a, i, hi) == Naive(g, mutating, s1, a', i + 1, hi);
      if mutating {
        StoreCons(a, i, x, rest);
      }
      assert Naive(g, mutating, s, a, i, hi) == (s2, if mutating then Store(a, i, [x] + rest) else a);
    } else {
      assert a[i..hi] == [];
      StoreAt(a, i, []);
      assert Store(a, i, []) == a;
    }
  }

  /** For an elementwise callable, any windows that tile `[lo, hi)` give the same state and
      array as the plain per-element loop over `[lo, hi)`. */
  lemma {:induction false} LanewiseRunIsNaive<S(!new)>(f: WindowOp<S>, g: ElementOp<S>, mutating: bool, s: S, a: seq<int>, ws: seq<Window>, lo: nat, hi: nat)
    requires Lanewise(f, g) && Tiles(ws, lo, hi) && hi <= |a|
    ensures KeepsWidth(f) && InBounds(ws, |a|)
    ensures Run(f, mutating, s, a, ws) == Naive(g, mutating, s, a, lo, hi)
    decreases |ws|
  {
    assert KeepsWidth(f) by {
      forall s0: S, w: seq<int> ensures |f(s0, w).1| == |w| {
        assert f(s0, w) == Lanes(g, s0, w);
      }
    }
    RunFrame(f, mutating, s, a, ws, lo, hi);
    if ws != [] {
      var w := ws[0];
      var mid := lo + w.width;
      assert f(s, a[lo..mid]) == Lanes(g, s, a[lo..mid]);
      LanesAreNaive(g, mutating, s, a, lo, mid);
      var (s', a') := Step(f, mutating, s, a, w);
      LanewiseRunIsNaive(f, g, mutating, s', a', ws[1..], mid, hi);
      NaiveSplit(g, mutating, s, a, lo, mid, hi);
    }
  }

  /** The traversal of `[first, last)` with an elementwise callable agrees with the plain loop,
      whatever the alignment of the array and the vector width. */
  lemma ScheduleIsNaive<S(!new)>(t: Target, base: nat, f: WindowOp<S>, g: ElementOp<S>, mutating: bool, s: S, a: seq<int>, first: nat, last: nat)
    requires t.Valid() && first <= last <= |a| && Lanewise(f, g)
    ensures KeepsWidth(f) && InBounds(Schedule(t, base, first, last), |a|)
    ensures Run(f, mutating, s, a, Schedule(t, base, first, last)) == Naive(g, mutating, s, a, first, last)
  {
    ScheduleTiles(t, base, first, last);
    LanewiseRunIsNaive(f, g, mutating, s, a, Schedule(t, base, first, last), first, last);
  }
}
