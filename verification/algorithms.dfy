/**
 `simd_for_each` and `simd_for_each_n` over an array of integers.

 Each overload runs the same three loops over a cursor `i` (the iterator
 `first`): a head loop of scalar windows while the address of `a[i]` is
 misaligned, a body loop of `V::Size`-wide windows, and a tail loop of scalar
 windows. The immutable overloads only load and call; the mutating overloads
 store each window back where it was loaded. The callable's carried state is
 returned at the end. Element 0 of the array sits at byte address `base`.

 Every overload records the windows it handed to the callable in the ghost
 `trace`, and promises that they are `Schedule(t, base, first, last)` and that
 its result is `Run` of the callable over them; the lemmas of `Traversal` and
 `Semantics` say what that means (exact coverage, aligned bulk windows, the
 same result as a plain loop for an elementwise callable).
 */
module Algorithms {
  import opened Alignment
  import opened Traversal
  import opened Semantics

  /** `Schedule` stays within the array, so `Run` over it is defined. */
  lemma ScheduleInBounds(t: Target, base: nat, first: nat, last: nat, n: nat)
    requires t.Valid() && first <= last <= n
    ensures InBounds(Schedule(t, base, first, last), n)
  {
    ScheduleTiles(t, base, first, last);
    TilesInBounds(Schedule(t, base, first, last), first, last, n);
  }

  /** One turn of the head loop moves window `[i, i + 1)` from the windows to come to the
      windows done. */
  lemma HeadStep(t: Target, base: nat, i: nat, last: nat, done: seq<Window>, whole: seq<Window>)
    requires t.Valid() && i < last && !Aligned(t, base, i)
    requires done + HeadFrom(t, base, i, last) == whole
    ensures done + [Window(Head, i, 1)] + HeadFrom(t, base, i + 1, last) == whole
  {
    assert HeadFrom(t, base, i, last) == [Window(Head, i, 1)] + HeadFrom(t, base, i + 1, last);
    assert done + [Window(Head, i, 1)] + HeadFrom(t, base, i + 1, last)
        == done + ([Window(Head, i, 1)] + HeadFrom(t, base, i + 1, last));
  }

  /** One turn of the bulk loop moves window `[i, i + V::Size)` to the windows done. */
  lemma BodyStep(t: Target, i: nat, last: nat, done: seq<Window>, whole: seq<Window>)
    requires t.Valid() && i <= last && i < last - t.width + 1
    requires done + BodyFrom(t, i, last) == whole
    ensures i + t.width <= last
    ensures done + [Window(Body, i, t.width)] + BodyFrom(t, i + t.width, last) == whole
  {
    assert BodyFrom(t, i, last) == [Window(Body, i, t.width)] + BodyFrom(t, i + t.width, last);
    assert done + [Window(Body, i, t.width)] + BodyFrom(t, i + t.width, last)
        == done + ([Window(Body, i, t.width)] + BodyFrom(t, i + t.width, last));
  }

  /** One turn of the tail loop moves window `[i, i + 1)` to the windows done. */
  lemma TailStep(i: nat, last: nat, done: seq<Window>, whole: seq<Window>)
    requires i < last
    requires done + TailFrom(i, last) == whole
    ensures done + [Window(Tail, i, 1)] + TailFrom(i + 1, last) == whole
  {
    assert TailFrom(i, last) == [Window(Tail, i, 1)] + TailFrom(i + 1, last);
    assert done + [Window(Tail, i, 1)] + TailFrom(i + 1, last)
        == done + ([Window(Tail, i, 1)] + TailFrom(i + 1, last));
  }

  /** `HeadStep` restated for the loop's variables after the turn: `done'` and `i'`. */
  lemma HeadStepped(t: Target, base: nat, i: nat, last: nat, done: seq<Window>, whole: seq<Window>, done': seq<Window>, i': nat)
    requires t.Valid() && i < last && !Aligned(t, base, i)
    requires done + HeadFrom(t, base, i, last) == whole
    requires done' == done + [Window(Head, i, 1)] && i' == i + 1
    ensures i' <= last && done' + HeadFrom(t, base, i', last) == whole
  {
    HeadStep(t, base, i, last, done, whole);
  }

  /** `BodyStep` restated for the loop's variables after the turn. */
  lemma BodyStepped(t: Target, i: nat, last: nat, done: seq<Window>, whole: seq<Window>, done': seq<Window>, i': nat)
    requires t.Valid() && i <= last && i < last - t.width + 1
    requires done + BodyFrom(t, i, last) == whole
    requires done' == done + [Window(Body, i, t.width)] && i' == i + t.width
    ensures i' <= last && done' + BodyFrom(t, i', last) == whole
  {
    BodyStep(t, i, last, done, whole);
  }

  /** `TailStep` restated for the loop's variables after the turn. */
  lemma TailStepped(i: nat, last: nat, done: seq<Window>, whole: seq<Window>, done': seq<Window>, i': nat)
    requires i < last
    requires done + TailFrom(i, last) == whole
    requires done' == done + [Window(Tail, i, 1)] && i' == i + 1
    ensures i' <= last && done' + TailFrom(i', last) == whole
  {
    TailStep(i, last, done, whole);
  }

  /** After one more window `w`, the state and array are one `Step` on from `r`, the result
      of the windows before it. */
  lemma RunStepped<S(!new)>(f: WindowOp<S>, m: bool, s0: S, a0: seq<int>, done: seq<Window>, w: Window, r: (S, seq<int>), done': seq<Window>)
    requires InBounds(done, |a0|) && w.start + w.width <= |a0|
    requires m ==> KeepsWidth(f)
    requires r == Run(f, m, s0, a0, done) && done' == done + [w]
    ensures InBounds(done', |a0|) && Run(f, m, s0, a0, done') == Step(f, m, r.0, r.1, w)
  {
    RunSnoc(f, m, s0, a0, done, w);
  }

  /** The windows of the three loops, one after the other, are the whole schedule. */
  lemma PhasesMakeSchedule(t: Target, base: nat, first: nat, last: nat, i1: nat, i2: nat, head: seq<Window>, body: seq<Window>, tail: seq<Window>, trace: seq<Window>)
    requires t.Valid() && first <= i1 <= i2 <= last
    requires head + BodyFrom(t, i1, last) == HeadFrom(t, base, first, last)
    requires body + TailFrom(i2, last) == BodyFrom(t, i1, last)
    requires tail == TailFrom(i2, last)
    requires trace == head + body + tail
    ensures trace == Schedule(t, base, first, last)
  {
    assert head + body + tail == head + (body + tail);
  }

  /** The schedule of `[first, last)` named by its length `count` instead of its end. */
  lemma CountedSchedule(t: Target, base: nat, first: nat, count: nat, last: nat, trace: seq<Window>)
    requires t.Valid() && last == first + count && trace == Schedule(t, base, first, last)
    ensures trace == Schedule(t, base, first, first + count)
  {
  }

  /** Running the three loops one after the other is running their windows together. */
  lemma RunPhases<S(!new)>(f: WindowOp<S>, m: bool, s0: S, a0: seq<int>, head: seq<Window>, body: seq<Window>, tail: seq<Window>, r1: (S, seq<int>), r2: (S, seq<int>), trace: seq<Window>)
    requires InBounds(head, |a0|) && InBounds(body, |a0|) && InBounds(tail, |a0|)
    requires m ==> KeepsWidth(f)
    requires r1 == Run(f, m, s0, a0, head)
    requires r2 == Run(f, m, r1.0, r1.1, body)
    requires trace == head + body + tail
    ensures InBounds(trace, |a0|)
    ensures Run(f, m, s0, a0, trace) == Run(f, m, r2.0, r2.1, tail)
  {
    RunAppend(f, m, s0, a0, head, body);
    RunAppend(f, m, s0, a0, head + body, tail);
  }

  /** `tmp.store(&a[i])` on the array: lane `k` of `out` goes to `a[i + k]`. */
  method StoreWindow(a: array<int>, i: nat, out: seq<int>)
    requires i + |out| <= a.Length
    modifies a
    ensures a[..] == Store(old(a[..]), i, out)
  {
    StoreAt(old(a[..]), i, out);
    forall k | 0 <= k < |out| {
      a[i + k] := out[k];
    }
  }

  /** `f(V(&a[i], Vc::Aligned))`: load the lanes of window `w` and call `f` on them. */
  method LoadAndCall<S(!new)>(a: array<int>, f: WindowOp<S>, s: S, w: Window) returns (s': S)
    requires w.start + w.width <= a.Length
    ensures s' == Step(f, false, s, a[..], w).0
  {
    assert a[..][w.start .. w.start + w.width] == a[w.start .. w.start + w.width];
    var (r, _) := f(s, a[w.start .. w.start + w.width]);
    s' := r;
  }

  /** `V tmp(&a[i], Vc::Aligned); f(tmp); tmp.store(&a[i], Vc::Aligned);` on window `w`. */
  method LoadCallStore<S(!new)>(a: array<int>, f: WindowOp<S>, s: S, w: Window) returns (s': S)
    requires w.start + w.width <= a.Length && KeepsWidth(f)
    modifies a
    ensures (s', a[..]) == Step(f, true, s, old(a[..]), w)
  {
    assert a[..][w.start .. w.start + w.width] == a[w.start .. w.start + w.width];
    var (r, tmp) := f(s, a[w.start .. w.start + w.width]);
    StoreWindow(a, w.start, tmp);
    s' := r;
  }

  // ---------------------------------------------------------------------------
  // The three loops of each overload

  /** The head loop of the immutable `simd_for_each`: scalar windows from `i0` while the
      address is misaligned; it stops at the first aligned position or at `last`. */
  method HeadLoopImmutable<S(!new)>(a: array<int>, i0: nat, last: nat, base: nat, t: Target, f: WindowOp<S>, s0: S)
    returns (i: nat, s: S, ghost done: seq<Window>)
    requires t.Valid() && i0 <= last <= a.Length
    ensures i0 <= i <= last && (i == last || Aligned(t, base, i))
    ensures forall p :: i0 <= p < i ==> !Aligned(t, base, p)
    ensures done + BodyFrom(t, i, last) == HeadFrom(t, base, i0, last)
    ensures InBounds(done, a.Length)
    ensures (s, a[..]) == Run(f, false, s0, a[..], done)
  {
    s, done := s0, [];
    i := i0;
    while !Aligned(t, base, i) && i != last
      invariant i0 <= i <= last
      invariant forall p :: i0 <= p < i ==> !Aligned(t, base, p)
      invariant done + HeadFrom(t, base, i, last) == HeadFrom(t, base, i0, last)
      invariant InBounds(done, a.Length)
      invariant (s, a[..]) == Run(f, false, s0, a[..], done)
      decreases last - i
    {
      var w := Window(Head, i, 1);
      ghost var prev, before, r := i, done, (s, a[..]);
      s := LoadAndCall(a, f, s, w);
      done, i := done + [w], i + 1;
      HeadStepped(t, base, prev, last, before, HeadFrom(t, base, i0, last), done, i);
      RunStepped(f, false, s0, a[..], before, w, r, done);
    }
    assert HeadFrom(t, base, i, last) == BodyFrom(t, i, last);
  }

  /** The bulk loop of the immutable `simd_for_each`: `V::Size`-wide windows while
      `i < last - V::Size + 1`; fewer than `V::Size` elements are left after it. */
  method BodyLoopImmutable<S(!new)>(a: array<int>, i0: nat, last: nat, t: Target, f: WindowOp<S>, s0: S)
    returns (i: nat, s: S, ghost done: seq<Window>)
    requires t.Valid() && i0 <= last <= a.Length
    ensures i0 <= i <= last && last - i < t.width
    ensures done + TailFrom(i, last) == BodyFrom(t, i0, last)
    ensures InBounds(done, a.Length)
    ensures (s, a[..]) == Run(f, false, s0, a[..], done)
  {
    s, done := s0, [];
    i := i0;
    var lastV: int := last - t.width + 1;
    while i < lastV
      invariant i0 <= i <= last
      invariant done + BodyFrom(t, i, last) == BodyFrom(t, i0, last)
      invariant InBounds(done, a.Length)
      invariant (s, a[..]) == Run(f, false, s0, a[..], done)
      decreases last - i
    {
      var w := Window(Body, i, t.width);
      ghost var prev, before, r := i, done, (s, a[..]);
      s := LoadAndCall(a, f, s, w);
      done, i := done + [w], i + t.width;
      BodyStepped(t, prev, last, before, BodyFrom(t, i0, last), done, i);
      RunStepped(f, false, s0, a[..], before, w, r, done);
    }
    assert BodyFrom(t, i, last) == TailFrom(i, last);
  }

  /** The tail loop of the immutable `simd_for_each`: scalar windows up to `last`. */
  method TailLoopImmutable<S(!new)>(a: array<int>, i0: nat, last: nat, f: WindowOp<S>, s0: S)
    returns (i: nat, s: S, ghost done: seq<Window>)
    requires i0 <= last <= a.Length
    ensures i == last && done == TailFrom(i0, last)
    ensures InBounds(done, a.Length)
    ensures (s, a[..]) == Run(f, false, s0, a[..], done)
  {
    s, done := s0, [];
    i := i0;
    while i != last
      invariant i0 <= i <= last
      invariant done + TailFrom(i, last) == TailFrom(i0, last)
      invariant InBounds(done, a.Length)
      invariant (s, a[..]) == Run(f, false, s0, a[..], done)
      decreases last - i
    {
      var w := Window(Tail, i, 1);
      ghost var prev, before, r := i, done, (s, a[..]);
      s := LoadAndCall(a, f, s, w);
      done, i := done + [w], i + 1;
      TailStepped(prev, last, before, TailFrom(i0, last), done, i);
      RunStepped(f, false, s0, a[..], before, w, r, done);
    }
    assert done + [] == done;
  }

  /** The head loop of the immutable `simd_for_each_n`: as `HeadLoopImmutable`, counting `len` down. */
  method HeadLoopNImmutable<S(!new)>(a: array<int>, i0: nat, len0: nat, ghost last: nat, base: nat, t: Target, f: WindowOp<S>, s0: S)
    returns (i: nat, len: int, s: S, ghost done: seq<Window>)
    requires t.Valid() && i0 + len0 == last <= a.Length
    ensures i0 <= i <= last && len == last - i && (len == 0 || Aligned(t, base, i))
    ensures forall p :: i0 <= p < i ==> !Aligned(t, base, p)
    ensures done + BodyFrom(t, i, last) == HeadFrom(t, base, i0, last)
    ensures InBounds(done, a.Length)
    ensures (s, a[..]) == Run(f, false, s0, a[..], done)
  {
    s, done := s0, [];
    i, len := i0, len0;
    while !Aligned(t, base, i) && len != 0
      invariant i0 <= i <= last && len == last - i
      invariant forall p :: i0 <= p < i ==> !Aligned(t, base, p)
      invariant done + HeadFrom(t, base, i, last) == HeadFrom(t, base, i0, last)
      invariant InBounds(done, a.Length)
      invariant (s, a[..]) == Run(f, false, s0, a[..], done)
      decreases len
    {
      var w := Window(Head, i, 1);
      ghost var prev, before, r := i, done, (s, a[..]);
      s := LoadAndCall(a, f, s, w);
      done, len, i := done + [w], len - 1, i + 1;
      HeadStepped(t, base, prev, last, before, HeadFrom(t, base, i0, last), done, i);
      RunStepped(f, false, s0, a[..], before, w, r, done);
    }
    assert HeadFrom(t, base, i, last) == BodyFrom(t, i, last);
  }

  /** The bulk loop of the immutable `simd_for_each_n`: `V::Size`-wide windows while
      `len >= V::Size`. */
  method BodyLoopNImmutable<S(!new)>(a: array<int>, i0: nat, len0: nat, ghost last: nat, t: Target, f: WindowOp<S>, s0: S)
    returns (i: nat, len: int, s: S, ghost done: seq<Window>)
    requires t.Valid() && i0 + len0 == last <= a.Length
    ensures i0 <= i <= last && len == last - i && len < t.width
    ensures done + TailFrom(i, last) == BodyFrom(t, i0, last)
    ensures InBounds(done, a.Length)
    ensures (s, a[..]) == Run(f, false, s0, a[..], done)
  {
    s, done := s0, [];
    i, len := i0, len0;
    while len >= t.width
      invariant i0 <= i <= last && len == last - i
      invariant done + BodyFrom(t, i, last) == BodyFrom(t, i0, last)
      invariant InBounds(done, a.Length)
      invariant (s, a[..]) == Run(f, false, s0, a[..], done)
      decreases len
    {
      var w := Window(Body, i, t.width);
      ghost var prev, before, r := i, done, (s, a[..]);
      s := LoadAndCall(a, f, s, w);
      done, len, i := done + [w], len - t.width, i + t.width;
      BodyStepped(t, prev, last, before, BodyFrom(t, i0, last), done, i);
      RunStepped(f, false, s0, a[..], before, w, r, done);
    }
    assert BodyFrom(t, i, last) == TailFrom(i, last);
  }

  /** The tail loop of the immutable `simd_for_each_n`: scalar windows until `len` is 0. */
  method TailLoopNImmutable<S(!new)>(a: array<int>, i0: nat, len0: nat, ghost last: nat, f: WindowOp<S>, s0: S)
    returns (i: nat, len: int, s: S, ghost done: seq<Window>)
    requires i0 + len0 == last <= a.Length
    ensures i == last && len == 0 && done == TailFrom(i0, last)
    ensures InBounds(done, a.Length)
    ensures (s, a[..]) == Run(f, false, s0, a[..], done)
  {
    s, done := s0, [];
    i, len := i0, len0;
    while len != 0
      invariant i0 <= i <= last && len == last - i
      invariant done + TailFrom(i, last) == TailFrom(i0, last)
      invariant InBounds(done, a.Length)
      invariant (s, a[..]) == Run(f, false, s0, a[..], done)
      decreases len
    {
      var w := Window(Tail, i, 1);
      ghost var prev, before, r := i, done, (s, a[..]);
      s := LoadAndCall(a, f, s, w);
      done, len, i := done + [w], len - 1, i + 1;
      TailStepped(prev, last, before, TailFrom(i0, last), done, i);
      RunStepped(f, false, s0, a[..], before, w, r, done);
    }
    assert done + [] == done;
  }

  /** The head loop of the mutating `simd_for_each`: scalar windows from `i0` while the
      address is misaligned; it stops at the first aligned position or at `last`. */
  method HeadLoopMutating<S(!new)>(a: array<int>, i0: nat, last: nat, base: nat, t: Target, f: WindowOp<S>, s0: S)
    returns (i: nat, s: S, ghost done: seq<Window>)
    requires t.Valid() && i0 <= last <= a.Length
    requires KeepsWidth(f)
    modifies a
    ensures i0 <= i <= last && (i == last || Aligned(t, base, i))
    ensures forall p :: i0 <= p < i ==> !Aligned(t, base, p)
    ensures done + BodyFrom(t, i, last) == HeadFrom(t, base, i0, last)
    ensures InBounds(done, a.Length)
    ensures (s, a[..]) == Run(f, true, s0, old(a[..]), done)
  {
    ghost var a0 := a[..];
    s, done := s0, [];
    i := i0;
    while !Aligned(t, base, i) && i != last
      invariant i0 <= i <= last
      invariant forall p :: i0 <= p < i ==> !Aligned(t, base, p)
      invariant done + HeadFrom(t, base, i, last) == HeadFrom(t, base, i0, last)
      invariant InBounds(done, a.Length)
      invariant (s, a[..]) == Run(f, true, s0, a0, done)
      decreases last - i
    {
      var w := Window(Head, i, 1);
      ghost var prev, before, r := i, done, (s, a[..]);
      s := LoadCallStore(a, f, s, w);
      done, i := done + [w], i + 1;
      HeadStepped(t, base, prev, last, before, HeadFrom(t, base, i0, last), done, i);
      RunStepped(f, true, s0, a0, before, w, r, done);
    }
    assert HeadFrom(t, base, i, last) == BodyFrom(t, i, last);
  }

  /** The bulk loop of the mutating `simd_for_each`: `V::Size`-wide windows while
      `i < last - V::Size + 1`; fewer than `V::Size` elements are left after it. */
  method BodyLoopMutating<S(!new)>(a: array<int>, i0: nat, last: nat, t: Target, f: WindowOp<S>, s0: S)
    returns (i: nat, s: S, ghost done: seq<Window>)
    requires t.Valid() && i0 <= last <= a.Length
    requires KeepsWidth(f)
    modifies a
    ensures i0 <= i <= last && last - i < t.width
    ensures done + TailFrom(i, last) == BodyFrom(t, i0, last)
    ensures InBounds(done, a.Length)
    ensures (s, a[..]) == Run(f, true, s0, old(a[..]), done)
  {
    ghost var a0 := a[..];
    s, done := s0, [];
    i := i0;
    var lastV: int := last - t.width + 1;
    while i < lastV
      invariant i0 <= i <= last
      invariant done + BodyFrom(t, i, last) == BodyFrom(t, i0, last)
      invariant InBounds(done, a.Length)
      invariant (s, a[..]) == Run(f, true, s0, a0, done)
      decreases last - i
    {
      var w := Window(Body, i, t.width);
      ghost var prev, before, r := i, done, (s, a[..]);
      s := LoadCallStore(a, f, s, w);
      done, i := done + [w], i + t.width;
      BodyStepped(t, prev, last, before, BodyFrom(t, i0, last), done, i);
      RunStepped(f, true, s0, a0, before, w, r, done);
    }
    assert BodyFrom(t, i, last) == TailFrom(i, last);
  }

  /** The tail loop of the mutating `simd_for_each`: scalar windows up to `last`. */
  method TailLoopMutating<S(!new)>(a: array<int>, i0: nat, last: nat, f: WindowOp<S>, s0: S)
    returns (i: nat, s: S, ghost done: seq<Window>)
    requires i0 <= last <= a.Length
    requires KeepsWidth(f)
    modifies a
    ensures i == last && done == TailFrom(i0, last)
    ensures InBounds(done, a.Length)
    ensures (s, a[..]) == Run(f, true, s0, old(a[..]), done)
  {
    ghost var a0 := a[..];
    s, done := s0, [];
    i := i0;
    while i != last
      invariant i0 <= i <= last
      invariant done + TailFrom(i, last) == TailFrom(i0, last)
      invariant InBounds(done, a.Length)
      invariant (s, a[..]) == Run(f, true, s0, a0, done)
      decreases last - i
    {
      var w := Window(Tail, i, 1);
      ghost var prev, before, r := i, done, (s, a[..]);
      s := LoadCallStore(a, f, s, w);
      done, i := done + [w], i + 1;
      TailStepped(prev, last, before, TailFrom(i0, last), done, i);
      RunStepped(f, true, s0, a0, before, w, r, done);
    }
    assert done + [] == done;
  }

  /** The head loop of the mutating `simd_for_each_n`: as `HeadLoopMutating`, counting `len` down. */
  method HeadLoopNMutating<S(!new)>(a: array<int>, i0: nat, len0: nat, ghost last: nat, base: nat, t: Target, f: WindowOp<S>, s0: S)
    returns (i: nat, len: int, s: S, ghost done: seq<Window>)
    requires t.Valid() && i0 + len0 == last <= a.Length
    requires KeepsWidth(f)
    modifies a
    ensures i0 <= i <= last && len == last - i && (len == 0 || Aligned(t, base, i))
    ensures forall p :: i0 <= p < i ==> !Aligned(t, base, p)
    ensures done + BodyFrom(t, i, last) == HeadFrom(t, base, i0, last)
    ensures InBounds(done, a.Length)
    ensures (s, a[..]) == Run(f, true, s0, old(a[..]), done)
  {
    ghost var a0 := a[..];
    s, done := s0, [];
    i, len := i0, len0;
    while !Aligned(t, base, i) && len != 0
      invariant i0 <= i <= last && len == last - i
      invariant forall p :: i0 <= p < i ==> !Aligned(t, base, p)
      invariant done + HeadFrom(t, base, i, last) == HeadFrom(t, base, i0, last)
      invariant InBounds(done, a.Length)
      invariant (s, a[..]) == Run(f, true, s0, a0, done)
      decreases len
    {
      var w := Window(Head, i, 1);
      ghost var prev, before, r := i, done, (s, a[..]);
      s := LoadCallStore(a, f, s, w);
      done, len, i := done + [w], len - 1, i + 1;
      HeadStepped(t, base, prev, last, before, HeadFrom(t, base, i0, last), done, i);
      RunStepped(f, true, s0, a0, before, w, r, done);
    }
    assert HeadFrom(t, base, i, last) == BodyFrom(t, i, last);
  }

  /** The bulk loop of the mutating `simd_for_each_n`: `V::Size`-wide windows while
      `len >= V::Size`. */
  method BodyLoopNMutating<S(!new)>(a: array<int>, i0: nat, len0: nat, ghost last: nat, t: Target, f: WindowOp<S>, s0: S)
    returns (i: nat, len: int, s: S, ghost done: seq<Window>)
    requires t.Valid() && i0 + len0 == last <= a.Length
    requires KeepsWidth(f)
    modifies a
    ensures i0 <= i <= last && len == last - i && len < t.width
    ensures done + TailFrom(i, last) == BodyFrom(t, i0, last)
    ensures InBounds(done, a.Length)
    ensures (s, a[..]) == Run(f, true, s0, old(a[..]), done)
  {
    ghost var a0 := a[..];
    s, done := s0, [];
    i, len := i0, len0;
    while len >= t.width
      invariant i0 <= i <= last && len == last - i
      invariant done + BodyFrom(t, i, last) == BodyFrom(t, i0, last)
      invariant InBounds(done, a.Length)
      invariant (s, a[..]) == Run(f, true, s0, a0, done)
      decreases len
    {
      var w := Window(Body, i, t.width);
      ghost var prev, before, r := i, done, (s, a[..]);
      s := LoadCallStore(a, f, s, w);
      done, len, i := done + [w], len - t.width, i + t.width;
      BodyStepped(t, prev, last, before, BodyFrom(t, i0, last), done, i);
      RunStepped(f, true, s0, a0, before, w, r, done);
    }
    assert BodyFrom(t, i, last) == TailFrom(i, last);
  }

  /** The tail loop of the mutating `simd_for_each_n`: scalar windows until `len` is 0. */
  method TailLoopNMutating<S(!new)>(a: array<int>, i0: nat, len0: nat, ghost last: nat, f: WindowOp<S>, s0: S)
    returns (i: nat, len: int, s: S, ghost done: seq<Window>)
    requires i0 + len0 == last <= a.Length
    requires KeepsWidth(f)
    modifies a
    ensures i == last && len == 0 && done == TailFrom(i0, last)
    ensures InBounds(done, a.Length)
    ensures (s, a[..]) == Run(f, true, s0, old(a[..]), done)
  {
    ghost var a0 := a[..];
    s, done := s0, [];
    i, len := i0, len0;
    while len != 0
      invariant i0 <= i <= last && len == last - i
      invariant done + TailFrom(i, last) == TailFrom(i0, last)
      invariant InBounds(done, a.Length)
      invariant (s, a[..]) == Run(f, true, s0, a0, done)
      decreases len
    {
      var w := Window(Tail, i, 1);
      ghost var prev, before, r := i, done, (s, a[..]);
      s := LoadCallStore(a, f, s, w);
      done, len, i := done + [w], len - 1, i + 1;
      TailStepped(prev, last, before, TailFrom(i0, last), done, i);
      RunStepped(f, true, s0, a0, before, w, r, done);
    }
    assert done + [] == done;
  }

  // ---------------------------------------------------------------------------
  // simd_for_each(first, last, f) and simd_for_each_n(first, count, f)

  /** The overload for a callable whose argument is immutable: load and call, never store. */
  method SimdForEachImmutable<S(!new)>(a: array<int>, first: nat, last: nat, base: nat, t: Target, f: WindowOp<S>, s0: S)
    returns (s: S, ghost trace: seq<Window>)
    requires t.Valid() && first <= last <= a.Length
    ensures InBounds(Schedule(t, base, first, last), a.Length)
    ensures s == Run(f, false, s0, a[..], Schedule(t, base, first, last)).0
    ensures trace == Schedule(t, base, first, last)
  {
    var i: nat;
    ghost var head, body, tail;
    i, s, head := HeadLoopImmutable(a, first, last, base, t, f, s0);
    ghost var i1, s1, a1 := i, s, a[..];
    i, s, body := BodyLoopImmutable(a, i, last, t, f, s);
    ghost var i2, s2, a2 := i, s, a[..];
    i, s, tail := TailLoopImmutable(a, i, last, f, s);
    trace := head + body + tail;
    PhasesMakeSchedule(t, base, first, last, i1, i2, head, body, tail, trace);
    RunPhases(f, false, s0, a[..], head, body, tail, (s1, a1), (s2, a2), trace);
  }

  /** The overload for a callable that may change its argument: load, call, store back. */
  method SimdForEachMutating<S(!new)>(a: array<int>, first: nat, last: nat, base: nat, t: Target, f: WindowOp<S>, s0: S)
    returns (s: S, ghost trace: seq<Window>)
    requires t.Valid() && first <= last <= a.Length && KeepsWidth(f)
    modifies a
    ensures trace == Schedule(t, base, first, last) && InBounds(trace, a.Length)
    ensures (s, a[..]) == Run(f, true, s0, old(a[..]), trace)
  {
    ghost var a0 := a[..];
    var i: nat;
    ghost var head, body, tail;
    i, s, head := HeadLoopMutating(a, first, last, base, t, f, s0);
    ghost var i1, s1, a1 := i, s, a[..];
    i, s, body := BodyLoopMutating(a, i, last, t, f, s);
    ghost var i2, s2, a2 := i, s, a[..];
    i, s, tail := TailLoopMutating(a, i, last, f, s);
    trace := head + body + tail;
    PhasesMakeSchedule(t, base, first, last, i1, i2, head, body, tail, trace);
    RunPhases(f, true, s0, a0, head, body, tail, (s1, a1), (s2, a2), trace);
  }

  /** The counted overload for a callable whose argument is immutable: load and call, never store. */
  method SimdForEachNImmutable<S(!new)>(a: array<int>, first: nat, count: nat, base: nat, t: Target, f: WindowOp<S>, s0: S)
    returns (s: S, ghost trace: seq<Window>)
    requires t.Valid() && first + count <= a.Length
    ensures InBounds(Schedule(t, base, first, first + count), a.Length)
    ensures s == Run(f, false, s0, a[..], Schedule(t, base, first, first + count)).0
    ensures trace == Schedule(t, base, first, first + count)
  {
    ghost var last := first + count;
    var i: nat;
    var len: int;
    ghost var head, body, tail;
    i, len, s, head := HeadLoopNImmutable(a, first, count, last, base, t, f, s0);
    ghost var i1, s1, a1 := i, s, a[..];
    i, len, s, body := BodyLoopNImmutable(a, i, len, last, t, f, s);
    ghost var i2, s2, a2 := i, s, a[..];
    i, len, s, tail := TailLoopNImmutable(a, i, len, last, f, s);
    trace := head + body + tail;
    PhasesMakeSchedule(t, base, first, last, i1, i2, head, body, tail, trace);
    RunPhases(f, false, s0, a[..], head, body, tail, (s1, a1), (s2, a2), trace);
    CountedSchedule(t, base, first, count, last, trace);
  }

  /** The counted overload for a callable that may change its argument: load, call, store back. */
  method SimdForEachNMutating<S(!new)>(a: array<int>, first: nat, count: nat, base: nat, t: Target, f: WindowOp<S>, s0: S)
    returns (s: S, ghost trace: seq<Window>)
    requires t.Valid() && first + count <= a.Length && KeepsWidth(f)
    modifies a
    ensures trace == Schedule(t, base, first, first + count) && InBounds(trace, a.Length)
    ensures (s, a[..]) == Run(f, true, s0, old(a[..]), trace)
  {
    ghost var last := first + count;
    ghost var a0 := a[..];
    var i: nat;
    var len: int;
    ghost var head, body, tail;
    i, len, s, head := HeadLoopNMutating(a, first, count, last, base, t, f, s0);
    ghost var i1, s1, a1 := i, s, a[..];
    i, len, s, body := BodyLoopNMutating(a, i, len, last, t, f, s);
    ghost var i2, s2, a2 := i, s, a[..];
    i, len, s, tail := TailLoopNMutating(a, i, len, last, f, s);
    trace := head + body + tail;
    PhasesMakeSchedule(t, base, first, last, i1, i2, head, body, tail, trace);
    RunPhases(f, true, s0, a0, head, body, tail, (s1, a1), (s2, a2), trace);
    CountedSchedule(t, base, first, count, last, trace);
  }

  // ---------------------------------------------------------------------------
  // Overload selection, the sequential fallbacks, and the two entry points side by side

  /** `simd_for_each` as the caller sees it: the immutable-argument trait of the callable
      picks the overload, modelled by the flag `immutable`. */
  method SimdForEach<S(!new)>(a: array<int>, first: nat, last: nat, base: nat, t: Target, f: WindowOp<S>, s0: S, immutable: bool)
    returns (s: S, ghost trace: seq<Window>)
    requires t.Valid() && first <= last <= a.Length && (!immutable ==> KeepsWidth(f))
    modifies a
    ensures trace == Schedule(t, base, first, last) && InBounds(trace, a.Length)
    ensures (s, a[..]) == Run(f, !immutable, s0, old(a[..]), trace)
  {
    if immutable {
      s, trace := SimdForEachImmutable(a, first, last, base, t, f, s0);
      ImmutableRunKeepsArray(f, s0, a[..], trace);
    } else {
      s, trace := SimdForEachMutating(a, first, last, base, t, f, s0);
    }
  }

  /** `simd_for_each_n` as the caller sees it, with the same overload selection. */
  method SimdForEachN<S(!new)>(a: array<int>, first: nat, count: nat, base: nat, t: Target, f: WindowOp<S>, s0: S, immutable: bool)
    returns (s: S, ghost trace: seq<Window>)
    requires t.Valid() && first + count <= a.Length && (!immutable ==> KeepsWidth(f))
    modifies a
    ensures trace == Schedule(t, base, first, first + count) && InBounds(trace, a.Length)
    ensures (s, a[..]) == Run(f, !immutable, s0, old(a[..]), trace)
  {
    if immutable {
      s, trace := SimdForEachNImmutable(a, first, count, base, t, f, s0);
      ImmutableRunKeepsArray(f, s0, a[..], trace);
    } else {
      s, trace := SimdForEachNMutating(a, first, count, base, t, f, s0);
    }
  }

  /** The fallback for a non-arithmetic element type: `std::for_each(first, last, f)`, one
      element at a time, the callable possibly changing the element it is given. */
  method ForEachSequential<S(!new), T>(a: array<T>, first: nat, last: nat, g: (S, T) -> (S, T), s0: S)
    returns (s: S)
    requires first <= last <= a.Length
    modifies a
    ensures (s, a[..]) == Naive(g, true, s0, old(a[..]), first, last)
  {
    ghost var a0 := a[..];
    s := s0;
    var i := first;
    while i != last
      invariant first <= i <= last
      invariant (s, a[..]) == Naive(g, true, s0, a0, first, i)
      decreases last - i
    {
      NaiveSplit(g, true, s0, a0, first, i, i + 1);
      var (s', x) := g(s, a[i]);
      a[i] := x;
      s, i := s', i + 1;
    }
  }

  /** The fallback of the counted form: `std::for_each_n(first, count, f)`. */
  method ForEachNSequential<S(!new), T>(a: array<T>, first: nat, count: nat, g: (S, T) -> (S, T), s0: S)
    returns (s: S)
    requires first + count <= a.Length
    modifies a
    ensures (s, a[..]) == Naive(g, true, s0, old(a[..]), first, first + count)
  {
    ghost var a0 := a[..];
    s := s0;
    var i, len := first, count;
    while len != 0
      invariant first <= i <= first + count && len == first + count - i
      invariant (s, a[..]) == Naive(g, true, s0, a0, first, i)
      decreases len
    {
      NaiveSplit(g, true, s0, a0, first, i, i + 1);
      var (s', x) := g(s, a[i]);
      a[i] := x;
      s, i, len := s', i + 1, len - 1;
    }
  }

  /** The counted and the endpoint immutable overloads hand the callable the same windows
      and return the same state. */
  method CountedAgreesImmutable<S(!new)>(a: array<int>, first: nat, count: nat, base: nat, t: Target, f: WindowOp<S>, s0: S)
    returns (s1: S, s2: S, ghost trace1: seq<Window>, ghost trace2: seq<Window>)
    requires t.Valid() && first + count <= a.Length
    ensures trace1 == trace2 && s1 == s2
  {
    s1, trace1 := SimdForEachImmutable(a, first, first + count, base, t, f, s0);
    s2, trace2 := SimdForEachNImmutable(a, first, count, base, t, f, s0);
  }

  /** A fresh array holding the same elements as `a`. */
  method CopyOf(a: array<int>) returns (b: array<int>)
    ensures fresh(b) && b[..] == a[..]
  {
    b := new int[a.Length];
    forall k | 0 <= k < a.Length {
      b[k] := a[k];
    }
  }

  /** Run on two copies of the same array, the counted and the endpoint mutating overloads
      return the same state and leave the same contents. */
  method CountedAgreesMutating<S(!new)>(a: array<int>, first: nat, count: nat, base: nat, t: Target, f: WindowOp<S>, s0: S)
    returns (s1: S, s2: S, b1: array<int>, b2: array<int>)
    requires t.Valid() && first + count <= a.Length && KeepsWidth(f)
    ensures s1 == s2 && b1.Length == b2.Length == a.Length && b1[..] == b2[..]
  {
    ghost var a0 := a[..];
    b1 := CopyOf(a);
    b2 := CopyOf(a);
    ghost var trace1, trace2;
    s1, trace1 := SimdForEachMutating(b1, first, first + count, base, t, f, s0);
    ghost var r1 := (s1, b1[..]);
    assert r1 == Run(f, true, s0, a0, trace1);
    assert b2[..] == a0;
    s2, trace2 := SimdForEachNMutating(b2, first, count, base, t, f, s0);
    assert (s1, b1[..]) == r1;
    assert trace1 == trace2;
  }
}
