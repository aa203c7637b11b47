# Vc `simd_for_each`, `simd_for_each_n` and the boolean reductions, in Dafny

This project models the algorithms header of the Vc SIMD library
(`Vc/common/algorithms.h`).

`simd_for_each(first, last, f)` walks a contiguous range of arithmetic
elements and calls the user's callable `f` on one of two kinds of window:
- a one-element scalar vector (`Scalar::Vector<T>`, called `V1` in the source). It is used while the current address is not aligned to `V::MemoryAlignment`, and again for the ragged tail.
- a full vector of `V::Size` elements. It is used for the aligned interior.

There are two overloads, picked by whether the callable's argument is immutable:
- the first only loads each window and calls `f`;
- the second loads the window, calls `f`, and stores the window back where it came from.

Both return `f`, so a callable can carry state such as a running sum.

`simd_for_each_n(first, count, f)` does the same for a range given by its length. It counts a signed `len` down instead of comparing against `last`.

The header also defines the reductions `all_of`, `any_of`, `none_of` and `some_of`, on a mask and on a plain `bool`.

The model is split into six modules:
- **Alignment** (`alignment.dfy`) holds the per-target constants as a `Target` value:
  - `width` is `V::Size`;
  - `alignment` is `V::MemoryAlignment`, a power of two;
  - `elemSize` is `sizeof(T)`.

  A `Target` is valid only if one bulk window's byte length is a multiple of the alignment. Element `i` of an array whose element 0 sits at byte `base` has address `base + i * elemSize`. `Aligned` is the source's test `addr & (A - 1)` being zero, written as `addr % A == 0`.
- **Traversal** (`traversal.dfy`) describes the windows handed to the callable, as positions.
  - `HeadFrom`, `BodyFrom` and `TailFrom` mirror the three loops. Each gives the windows still to come when the cursor is at position `i` in that phase.
  - `Schedule` is the whole sequence of windows.
  - Lemmas prove exact coverage in increasing order, the phase order and window widths, the alignment of bulk windows, and how many windows each phase takes.
- **Semantics** (`semantics.dfy`) describes what the callable does, window by window.
  - A callable is a function from its carried state and a window's lanes to its new state and the lanes as it left them.
  - `Run` visits a sequence of windows with or without the store step.
  - `Naive` is the plain per-element loop.
  - Lemmas prove:
    - the immutable form never changes the array;
    - positions outside the range are never touched;
    - for an elementwise callable, any traversal agrees with the plain loop.
- **Algorithms** (`algorithms.dfy`) holds the four overloads as methods over an `array<int>`.
  - Each overload's three successive loops are written as three loop methods with their own invariants. They are composed in one method per overload, in the order of the source.
  - Every overload returns the callable's final state and a ghost trace of the windows it visited. It promises that the trace is `Schedule` and that the state and array are `Run` over it.
  - This module also holds the overload selection as a flag, the sequential fallbacks for non-arithmetic element types, and the equivalence of the counted and endpoint forms.
- **Reductions** (`reductions.dfy`) models a mask as the sequence of its lane values.
- **Examples** (`examples.dfy`) holds two callables and one worked schedule:
  - a running sum through the immutable overload;
  - an in-place scaling (`v *= factor`) through the mutating overload;
  - one concrete schedule, written out.

## Model

| member | source | states |
|---|---|---|
| Alignment.BulkStrideKeepsAlignment | Vc/common/algorithms.h:127 | advancing an aligned position by one bulk window (`first += V::Size`) lands on an aligned position again, given that the bulk stride is a multiple of the alignment |
| Traversal.ScheduleTiles | Vc/common/algorithms.h:120-133 | the windows are non-empty and contiguous, and end to end cover exactly `[first, last)`; the range is empty exactly when no window is visited, so `f` is never called and is returned unchanged |
| Traversal.ScheduleVisitsEachOnce | Vc/common/algorithms.h:120-132 | the positions handed to the callable, window after window and lane after lane, are `first, first+1, ..., last-1`: each element exactly once, in increasing order |
| Traversal.ScheduleShape | Vc/common/algorithms.h:120-132 | head windows come first, then bulk windows, then tail windows; bulk windows are `V::Size` wide and head and tail windows are one element |
| Traversal.BulkWindowsAligned | Vc/common/algorithms.h:126-129 | every bulk window starts at an address that is a multiple of `V::MemoryAlignment`, and all `V::Size` of its elements lie inside `[first, last)` |
| Traversal.PhaseCounts | Vc/common/algorithms.h:120-132 | the head takes scalar windows exactly while the address is misaligned and the range is not exhausted, stopping at the first aligned position or at `last`; the body then takes `(last - h) / V::Size` bulk windows; the tail takes the remaining `(last - h) % V::Size` elements, fewer than `V::Size`; the counts add up to the range length |
| Traversal.HeadShort | Vc/common/algorithms.h:120-125 | for an array whose first element sits at a multiple of `sizeof(T)`, an aligned position lies within `V::Size` elements of `first`, so the head phase takes fewer than `V::Size` scalar windows; for other arrays no bound is promised, and the whole range may be scalar |
| Semantics.StoreAt | Vc/common/algorithms.h:153 | storing a window's lanes back writes exactly the window's positions, lane `k` to position `i + k`, and leaves every other position as it was |
| Semantics.RunAppend | Vc/common/algorithms.h:120-132 | running the three loops one after the other equals running their windows as one sequence, each loop starting from the state and array the previous one left |
| Semantics.ImmutableRunKeepsArray | Vc/common/algorithms.h:116-134 | without the store step the array is never written, whatever the windows and the callable |
| Semantics.RunFrame | Vc/common/algorithms.h:147-165 | load, call and store over windows tiling `[first, last)` leaves every position outside `[first, last)` unchanged |
| Semantics.LanesAreNaive | Vc/common/algorithms.h:156-159 | one window of an elementwise callable, loaded, called and (when mutating) stored back, gives the same state and array as the plain loop over the window's positions |
| Semantics.LanewiseRunIsNaive | Vc/common/algorithms.h:147-165 | for an elementwise callable, any windows tiling `[lo, hi)` give the same state and array as the plain per-element loop over `[lo, hi)` |
| Semantics.ScheduleIsNaive | Vc/common/algorithms.h:143-167 | for an elementwise callable, the traversal of `[first, last)` gives the same state and array as the plain per-element loop, for every alignment of the array and every vector width |
| Algorithms.ScheduleInBounds | Vc/common/algorithms.h:120-132 | every window of the traversal lies inside the array when the range does |
| Algorithms.LoadAndCall | Vc/common/algorithms.h:128 | `f(V(&*first, Aligned))` calls the callable on the window's lanes and changes nothing in the array |
| Algorithms.StoreWindow | Vc/common/algorithms.h:159 | `tmp.store(&*first, Aligned)` overwrites exactly the window with the lanes of `tmp` |
| Algorithms.LoadCallStore | Vc/common/algorithms.h:157-159 | load, call and store of one window is one `Step` of the callable, with the store |
| Algorithms.HeadLoopImmutable | Vc/common/algorithms.h:120-125 | the head loop stops at `last` or at the first aligned position, and every position it passed is misaligned; its windows are the head of the schedule and the rest is the body phase's; the array is unchanged and the state is the callable run over those windows |
| Algorithms.BodyLoopImmutable | Vc/common/algorithms.h:126-129 | the bulk loop runs while `first < last - V::Size + 1` and leaves fewer than `V::Size` elements; its windows are the body phase's, with the tail's still to come; the array is unchanged |
| Algorithms.TailLoopImmutable | Vc/common/algorithms.h:130-132 | the tail loop ends at `last` having visited exactly the tail windows; the array is unchanged |
| Algorithms.HeadLoopMutating | Vc/common/algorithms.h:147-154 | as the immutable head loop, with each scalar window stored back; state and array are the callable run with the store over the head windows |
| Algorithms.BodyLoopMutating | Vc/common/algorithms.h:155-160 | as the immutable bulk loop, with each bulk window stored back |
| Algorithms.TailLoopMutating | Vc/common/algorithms.h:161-165 | as the immutable tail loop, with each scalar window stored back |
| Algorithms.HeadLoopNImmutable | Vc/common/algorithms.h:192-197 | the counted head loop runs while misaligned and `len != 0`; it keeps `len == last - first`, and stops with `len == 0` or at an aligned position; it visits the same windows as the endpoint head loop |
| Algorithms.BodyLoopNImmutable | Vc/common/algorithms.h:198-200 | the counted bulk loop runs while `len >= V::Size` and leaves `len < V::Size`; it visits the same windows as the endpoint bulk loop |
| Algorithms.TailLoopNImmutable | Vc/common/algorithms.h:201-203 | the counted tail loop runs until `len == 0`, visiting exactly the tail windows |
| Algorithms.HeadLoopNMutating | Vc/common/algorithms.h:219-226 | as the counted immutable head loop, with each scalar window stored back |
| Algorithms.BodyLoopNMutating | Vc/common/algorithms.h:227-231 | as the counted immutable bulk loop, with each bulk window stored back |
| Algorithms.TailLoopNMutating | Vc/common/algorithms.h:232-236 | as the counted immutable tail loop, with each scalar window stored back |
| Algorithms.SimdForEachImmutable | Vc/common/algorithms.h:110-134 | the windows visited are exactly `Schedule(first, last)`; the returned callable state is the initial state threaded through them in order; the method has no write access to the array |
| Algorithms.SimdForEachMutating | Vc/common/algorithms.h:136-167 | the windows visited are exactly `Schedule(first, last)`; the returned state and the final array are the callable run over them with each window stored back |
| Algorithms.SimdForEachNImmutable | Vc/common/algorithms.h:180-205 | the windows visited are exactly `Schedule(first, first + count)`; the returned state is threaded through them in order; no write access to the array |
| Algorithms.SimdForEachNMutating | Vc/common/algorithms.h:207-238 | the windows visited are exactly `Schedule(first, first + count)`; state and final array are the callable run over them with the store |
| Algorithms.SimdForEach | Vc/common/algorithms.h:112-116 | with the immutable-argument flag set, the array is unchanged and the state is the run without stores; otherwise the run with stores |
| Algorithms.SimdForEachN | Vc/common/algorithms.h:181-187 | the same overload selection for the counted form |
| Algorithms.ForEachSequential | Vc/common/algorithms.h:170-177 | the fallback for non-arithmetic elements visits `first, ..., last-1` one element at a time, each result written back: the plain per-element loop |
| Algorithms.ForEachNSequential | Vc/common/algorithms.h:253-260 | the counted fallback visits `first, ..., first + count - 1` one element at a time, each result written back: the plain per-element loop over `[first, first + count)`; it returns the callable's state where line 259 returns the iterator (see Left out) |
| Algorithms.CountedAgreesImmutable | Vc/common/algorithms.h:187-205 | `simd_for_each_n(first, count, f)` visits the same windows and returns the same state as `simd_for_each(first, first + count, f)` |
| Algorithms.CountedAgreesMutating | Vc/common/algorithms.h:214-238 | on two copies of the same array, the counted and the endpoint mutating forms return the same state and leave the same contents |
| Reductions.AllOf | Vc/common/algorithms.h:44 | `all_of(m)` is true exactly when every lane of `m` is true |
| Reductions.AllOfBool | Vc/common/algorithms.h:48 | `all_of(b)` is `b`, the answer for a one-lane mask |
| Reductions.AnyOf | Vc/common/algorithms.h:53 | `any_of(m)` is true exactly when some lane of `m` is true |
| Reductions.AnyOfBool | Vc/common/algorithms.h:57 | `any_of(b)` is `b`, the answer for a one-lane mask |
| Reductions.NoneOf | Vc/common/algorithms.h:62 | `none_of(m)` is true exactly when no lane is true, i.e. it is the negation of `any_of(m)` |
| Reductions.NoneOfBool | Vc/common/algorithms.h:66 | `none_of(b)` is `!b`, the answer for a one-lane mask |
| Reductions.SomeOf | Vc/common/algorithms.h:72 | `some_of(m)` is true exactly when at least one lane is true and at least one is false; on a non-empty mask that is neither `all_of` nor `none_of` |
| Reductions.SomeOfBool | Vc/common/algorithms.h:76 | `some_of(b)` is `false`, the answer for a one-lane mask, which is never mixed |
| Examples.SimdSum | Vc/common/algorithms.h:116-134 | a running sum carried by the callable through the immutable overload is the sum of the range, for every alignment and vector width |
| Examples.SimdScale | Vc/common/algorithms.h:143-167 | the mutating overload with a callable that does `v *= factor` on its argument multiplies every element of the range by `factor` and leaves the rest of the array unchanged |
| Examples.ScheduleExample | Vc/common/algorithms.h:120-132 | 4 lanes of 4 bytes, 16-byte alignment, element 0 at byte 8, range `[0, 11)`: two head windows, bulk windows at 2 and 6, one tail window at 10 |

## Left out

- Aligned: the source tests `addr & (V::MemoryAlignment - 1)`. The model uses `addr % V::MemoryAlignment`. The two agree for a power-of-two alignment, but the bitwise form and that equivalence are not modelled.
- Valid: the bulk stride `V::Size * sizeof(T)` is assumed to be a multiple of `V::MemoryAlignment`. This holds for Vc's vector types, but the model does not derive it from them.
- The SIMD types `Vc::Vector<T>` and `Vc::Scalar::Vector<T>` are not modelled. Their aligned load and store instructions are also left out, as is the choice of `V::Size` and `V::MemoryAlignment` per target. A window is the sequence of its lanes, and the target constants are parameters.
- Elements are mathematical integers. Floating-point element types and fixed-width integer overflow inside the callable are not modelled.
- The callable is a pure function of its carried state and the window's lanes. Returning `std::move(f)` is modelled as returning that state. A callable's side effects on anything other than its own state and its argument are not modelled.
- HeadLoopMutating, BodyLoopMutating, TailLoopMutating, HeadLoopNMutating, BodyLoopNMutating, TailLoopNMutating, SimdForEachMutating, SimdForEachNMutating, SimdForEach, SimdForEachN: each requires the callable to return exactly as many lanes as it was given. This is the model's version of a vector register keeping its width.
- Each overload's three loops share one function body in the source. Here they are three methods, composed in source order, with the iterator passed between them.
- Reinterpreting a pointer as `std::uintptr_t` is not modelled. An address is `base + i * sizeof(T)` over naturals.
- Two C++ undefined-behaviour details are not modelled:
  - the head loop dereferences `*first` before testing `first != last` (lines 120-122 and 192-194);
  - `last - V::Size + 1` may point before the start of the range (line 126).

  In the model, the head loop tests alignment at position `last` without reading the element there. `last - V::Size + 1` is computed as an unbounded integer.
- The `len` variable of the counted forms is signed (`std::make_signed<size_t>`). A `count` beyond the signed range is not modelled: `len` is an unbounded integer.
- The trait-based overload selection is not modelled:
  - `Traits::is_functor_argument_immutable` (lines 112-114 and 137-142) becomes the flag `immutable` of `SimdForEach` and `SimdForEachN`;
  - `std::is_arithmetic` is reflected only by the SIMD overloads working on `array<int>` and the sequential fallbacks working on any element type.
- ForEachNSequential: line 259 returns the result of `std::for_each_n`, which is the advanced iterator `first + count`, not the callable. The model returns the callable's state, as the endpoint fallback at line 176 does. The element visit is modelled; the return value of line 259 is not.
- The GCC-specific `simd_for_each_n` (lines 244-251) is not modelled. It calls `std::apply` on tuple-like elements and returns the iterator where the callable is declared.
- The documentation-only declaration (lines 107-108) is not modelled.
