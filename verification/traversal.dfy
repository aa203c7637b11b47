/**
 The windows that `simd_for_each` hands to the user's callable, as positions.

 The traversal has three phases, each a loop over the same cursor: a head of
 1-element (`V1`) windows while the cursor's address is misaligned, a body of
 `V::Size`-element (`V`) windows while at least that many elements remain, and
 a tail of 1-element windows until the range is exhausted. `HeadFrom`,
 `BodyFrom` and `TailFrom` give the windows still to come when the cursor is
 at position `i` in that phase; `Schedule` is the whole sequence.
 */
module Traversal {
  import opened Alignment

  datatype Phase = Head | Body | Tail

  /** A window of `width` consecutive elements starting at array index `start`. */
  datatype Window = Window(phase: Phase, start: nat, width: nat)

  /** Every window lies inside `[lo, hi)`. */
  predicate Inside(ws: seq<Window>, lo: nat, hi: nat) {
    forall k :: 0 <= k < |ws| ==> lo <= ws[k].start && ws[k].start + ws[k].width <= hi
  }

  /** Third loop: one scalar window per remaining element. */
  function TailFrom(i: nat, hi: nat): (r: seq<Window>)
    requires i <= hi
    decreases hi - i
  {
    if i == hi then [] else [Window(Tail, i, 1)] + TailFrom(i + 1, hi)
  }

  /** Second loop: `for (; first < last - V::Size + 1; first += V::Size)`. */
  function BodyFrom(t: Target, i: nat, hi: nat): (r: seq<Window>)
    requires t.Valid() && i <= hi
    decreases hi - i
  {
    if i < hi - t.width + 1 then [Window(Body, i, t.width)] + BodyFrom(t, i + t.width, hi)
    else TailFrom(i, hi)
  }

  /** First loop: scalar windows while the address is misaligned and `first != last`. */
  function HeadFrom(t: Target, base: nat, i: nat, hi: nat): (r: seq<Window>)
    requires t.Valid() && i <= hi
    decreases hi - i
  {
    if !Aligned(t, base, i) && i != hi then [Window(Head, i, 1)] + HeadFrom(t, base, i + 1, hi)
    else BodyFrom(t, i, hi)
  }

  /** All windows of a traversal of `[first, last)` over an array whose element 0 is at `base`. */
  function Schedule(t: Target, base: nat, first: nat, last: nat): seq<Window>
    requires t.Valid() && first <= last
  {
    HeadFrom(t, base, first, last)
  }

  // ---------------------------------------------------------------------------
  // Exact coverage, in order

  /** The windows are non-empty, contiguous and end to end cover exactly `[lo, hi)`. */
  predicate Tiles(ws: seq<Window>, lo: nat, hi: nat)
    decreases |ws|
  {
    if ws == [] then lo == hi
    else ws[0].start == lo && 1 <= ws[0].width && lo + ws[0].width <= hi
         && Tiles(ws[1..], lo + ws[0].width, hi)
  }

  /** The ascending positions `lo, lo+1, ..., hi-1`. */
  function Range(lo: nat, hi: nat): (r: seq<nat>)
    ensures |r| == if lo <= hi then hi - lo else 0
    ensures forall k :: 0 <= k < |r| ==> r[k] == lo + k
    decreases hi - lo
  {
    if lo >= hi then [] else [lo] + Range(lo + 1, hi)
  }

  /** The positions handed to the callable, window after window, lane after lane. */
  function Positions(ws: seq<Window>): seq<nat>
    decreases |ws|
  {
    if ws == [] then [] else Range(ws[0].start, ws[0].start + ws[0].width) + Positions(ws[1..])
  }

  lemma {:induction false} TailTiles(i: nat, hi: nat)
    requires i <= hi
    ensures Tiles(TailFrom(i, hi), i, hi)
    decreases hi - i
  {
    if i != hi {
      TailTiles(i + 1, hi);
      assert TailFrom(i, hi)[1..] == TailFrom(i + 1, hi);
    }
  }

  lemma {:induction false} BodyTiles(t: Target, i: nat, hi: nat)
    requires t.Valid() && i <= hi
    ensures Tiles(BodyFrom(t, i, hi), i, hi)
    decreases hi - i
  {
    if i < hi - t.width + 1 {
      BodyTiles(t, i + t.width, hi);
      assert BodyFrom(t, i, hi)[1..] == BodyFrom(t, i + t.width, hi);
    } else {
      TailTiles(i, hi);
    }
  }

  lemma {:induction false} HeadTiles(t: Target, base: nat, i: nat, hi: nat)
    requires t.Valid() && i <= hi
    ensures Tiles(HeadFrom(t, base, i, hi), i, hi)
    decreases hi - i
  {
    if !Aligned(t, base, i) && i != hi {
      HeadTiles(t, base, i + 1, hi);
      assert HeadFrom(t, base, i, hi)[1..] == HeadFrom(t, base, i + 1, hi);
    } else {
      BodyTiles(t, i, hi);
    }
  }

  /** The schedule covers `[first, last)` end to end; an empty range has no windows. */
  lemma ScheduleTiles(t: Target, base: nat, first: nat, last: nat)
    requires t.Valid() && first <= last
    ensures Tiles(Schedule(t, base, first, last), first, last)
    ensures first == last <==> Schedule(t, base, first, last) == []
  {
    HeadTiles(t, base, first, last);
  }

  /** Tiling windows lie inside the range they tile. */
  lemma {:induction false} TilesInside(ws: seq<Window>, lo: nat, hi: nat)
    requires Tiles(ws, lo, hi)
    ensures Inside(ws, lo, hi)
    decreases |ws|
  {
    if ws != [] {
      TilesInside(ws[1..], lo + ws[0].width, hi);
    }
  }

  lemma {:induction false} RangeSplit(lo: nat, mid: nat, hi: nat)
    requires lo <= mid <= hi
    ensures Range(lo, mid) + Range(mid, hi) == Range(lo, hi)
  {
  }

  /** Tiling windows visit every position of `[lo, hi)` exactly once, in increasing order. */
  lemma {:induction false} TilesVisitEachOnce(ws: seq<Window>, lo: nat, hi: nat)
    requires Tiles(ws, lo, hi)
    ensures Positions(ws) == Range(lo, hi)
    decreases |ws|
  {
    if ws != [] {
      var mid := lo + ws[0].width;
      TilesVisitEachOnce(ws[1..], mid, hi);
      RangeSplit(lo, mid, hi);
    }
  }

  /** The traversal of `[first, last)` hands every element to the callable exactly once,
      in increasing position order. */
  lemma ScheduleVisitsEachOnce(t: Target, base: nat, first: nat, last: nat)
    requires t.Valid() && first <= last
    ensures Positions(Schedule(t, base, first, last)) == Range(first, last)
  {
    ScheduleTiles(t, base, first, last);
    TilesVisitEachOnce(Schedule(t, base, first, last), first, last);
  }

  // ---------------------------------------------------------------------------
  // Phase order and window widths

  function Rank(p: Phase): nat {
    match p
    case Head => 0
    case Body => 1
    case Tail => 2
  }

  /** Head windows come first, then body windows, then tail windows. */
  predicate InPhaseOrder(ws: seq<Window>) {
    forall j, k :: 0 <= j < k < |ws| ==> Rank(ws[j].phase) <= Rank(ws[k].phase)
  }

  /** Body windows are `V::Size` wide, head and tail windows are single elements. */
  predicate Widths(t: Target, ws: seq<Window>) {
    forall k :: 0 <= k < |ws| ==> ws[k].width == if ws[k].phase == Body then t.width else 1
  }

  /** No window belongs to a phase earlier than `p`. */
  predicate NotBefore(ws: seq<Window>, p: Phase) {
    forall k :: 0 <= k < |ws| ==> Rank(p) <= Rank(ws[k].phase)
  }

  lemma {:induction false} TailShape(t: Target, i: nat, hi: nat)
    requires i <= hi
    ensures var ws := TailFrom(i, hi); InPhaseOrder(ws) && Widths(t, ws) && NotBefore(ws, Tail)
    decreases hi - i
  {
    if i != hi {
      TailShape(t, i + 1, hi);
    }
  }

  lemma {:induction false} BodyShape(t: Target, i: nat, hi: nat)
    requires t.Valid() && i <= hi
    ensures var ws := BodyFrom(t, i, hi); InPhaseOrder(ws) && Widths(t, ws) && NotBefore(ws, Body)
    decreases hi - i
  {
    if i < hi - t.width + 1 {
      BodyShape(t, i + t.width, hi);
    } else {
      TailShape(t, i, hi);
    }
  }

  lemma {:induction false} HeadShape(t: Target, base: nat, i: nat, hi: nat)
    requires t.Valid() && i <= hi
    ensures var ws := HeadFrom(t, base, i, hi); InPhaseOrder(ws) && Widths(t, ws)
    decreases hi - i
  {
    if !Aligned(t, base, i) && i != hi {
      HeadShape(t, base, i + 1, hi);
    } else {
      BodyShape(t, i, hi);
    }
  }

  /** The schedule is head windows of width 1, then body windows of width `V::Size`,
      then tail windows of width 1. */
  lemma ScheduleShape(t: Target, base: nat, first: nat, last: nat)
    requires t.Valid() && first <= last
    ensures InPhaseOrder(Schedule(t, base, first, last))
    ensures Widths(t, Schedule(t, base, first, last))
  {
    HeadShape(t, base, first, last);
  }

  // ---------------------------------------------------------------------------
  // Alignment of bulk windows

  /** Every body window starts at an aligned address. */
  predicate BulkAligned(t: Target, base: nat, ws: seq<Window>)
    requires t.Valid()
  {
    forall k :: 0 <= k < |ws| && ws[k].phase == Body ==> Aligned(t, base, ws[k].start)
  }

  lemma {:induction false} TailHasNoBulk(t: Target, base: nat, i: nat, hi: nat)
    requires t.Valid() && i <= hi
    ensures forall k :: 0 <= k < |TailFrom(i, hi)| ==> TailFrom(i, hi)[k].phase == Tail
    decreases hi - i
  {
    if i != hi {
      TailHasNoBulk(t, base, i + 1, hi);
    }
  }

  lemma {:induction false} BodyAligned(t: Target, base: nat, i: nat, hi: nat)
    requires t.Valid() && i <= hi
    requires Aligned(t, base, i) || i == hi
    ensures BulkAligned(t, base, BodyFrom(t, i, hi))
    decreases hi - i
  {
    if i < hi - t.width + 1 {
      BulkStrideKeepsAlignment(t, base, i);
      BodyAligned(t, base, i + t.width, hi);
    } else {
      TailHasNoBulk(t, base, i, hi);
    }
  }

  lemma {:induction false} HeadAligned(t: Target, base: nat, i: nat, hi: nat)
    requires t.Valid() && i <= hi
    ensures BulkAligned(t, base, HeadFrom(t, base, i, hi))
    decreases hi - i
  {
    if !Aligned(t, base, i) && i != hi {
      HeadAligned(t, base, i + 1, hi);
    } else {
      BodyAligned(t, base, i, hi);
    }
  }

  /** Every bulk window starts at an address that is a multiple of `V::MemoryAlignment`
      and all of its `V::Size` elements lie inside `[first, last)`. */
  lemma BulkWindowsAligned(t: Target, base: nat, first: nat, last: nat)
    requires t.Valid() && first <= last
    ensures var ws := Schedule(t, base, first, last);
      forall k :: 0 <= k < |ws| && ws[k].phase == Body ==>
        Aligned(t, base, ws[k].start) && first <= ws[k].start && ws[k].start + t.width <= last
  {
    HeadAligned(t, base, first, last);
    HeadShape(t, base, first, last);
    ScheduleTiles(t, base, first, last);
    TilesInside(Schedule(t, base, first, last), first, last);
  }

  // ---------------------------------------------------------------------------
  // How many windows each phase takes

  /** Number of windows of phase `p`. */
  function Count(ws: seq<Window>, p: Phase): nat
    decreases |ws|
  {
    if ws == [] then 0 else (if ws[0].phase == p then 1 else 0) + Count(ws[1..], p)
  }

  lemma {:induction false} TailCount(i: nat, hi: nat)
    requires i <= hi
    ensures var ws := TailFrom(i, hi);
      Count(ws, Head) == 0 && Count(ws, Body) == 0 && Count(ws, Tail) == hi - i
    decreases hi - i
  {
    if i != hi {
      TailCount(i + 1, hi);
      assert TailFrom(i, hi)[1..] == TailFrom(i + 1, hi);
    }
  }

  lemma {:induction false} BodyCount(t: Target, i: nat, hi: nat)
    requires t.Valid() && i <= hi
    ensures var ws := BodyFrom(t, i, hi);
      Count(ws, Head) == 0 && Count(ws, Body) == (hi - i) / t.width
      && Count(ws, Tail) == (hi - i) % t.width
    decreases hi - i
  {
    if i < hi - t.width + 1 {
      BodyCount(t, i + t.width, hi);
      assert BodyFrom(t, i, hi)[1..] == BodyFrom(t, i + t.width, hi);
      DivStep(hi - i, t.width);
    } else {
      TailCount(i, hi);
      DivModUnique(hi - i, t.width, 0, hi - i);
    }
  }

  /** Where the head loop stops: `i` plus the number of head windows. */
  lemma {:induction false} HeadCount(t: Target, base: nat, i: nat, hi: nat)
    requires t.Valid() && i <= hi
    ensures var ws := HeadFrom(t, base, i, hi); var h := i + Count(ws, Head);
      && h <= hi
      && (h == hi || Aligned(t, base, h))
      && (forall p :: i <= p < h ==> !Aligned(t, base, p))
      && Count(ws, Body) == (hi - h) / t.width
      && Count(ws, Tail) == (hi - h) % t.width
    decreases hi - i
  {
    if !Aligned(t, base, i) && i != hi {
      HeadCount(t, base, i + 1, hi);
      assert HeadFrom(t, base, i, hi)[1..] == HeadFrom(t, base, i + 1, hi);
    } else {
      BodyCount(t, i, hi);
    }
  }

  /** The head phase takes scalar windows exactly while the address is misaligned and
      the range is not exhausted; the body phase then takes `(last - h) / V::Size` bulk
      windows, leaving fewer than `V::Size` elements for the tail phase. */
  lemma PhaseCounts(t: Target, base: nat, first: nat, last: nat)
    requires t.Valid() && first <= last
    ensures var ws := Schedule(t, base, first, last); var h := first + Count(ws, Head);
      && h <= last
      && (h == last || Aligned(t, base, h))
      && (forall p :: first <= p < h ==> !Aligned(t, base, p))
      && Count(ws, Body) == (last - h) / t.width
      && Count(ws, Tail) == (last - h) % t.width
      && Count(ws, Tail) < t.width
      && Count(ws, Head) + Count(ws, Body) * t.width + Count(ws, Tail) == last - first
  {
    HeadCount(t, base, first, last);
    var ws := Schedule(t, base, first, last);
    var h := first + Count(ws, Head);
    var n, w := last - h, t.width;
    var b, c := Count(ws, Body), Count(ws, Tail);
    assert b == n / w && c == n % w;
    DivModParts(n, w);
  }

  /** For an array whose first element sits at an address that is a multiple of `sizeof(T)`
      (a naturally aligned array), an aligned position is reached within `V::Size` elements,
      so the head phase takes fewer than `V::Size` scalar windows. */
  lemma HeadShort(t: Target, base: nat, first: nat, last: nat)
    requires t.Valid() && first <= last && base % t.elemSize == 0
    ensures Count(Schedule(t, base, first, last), Head) < t.width
  {
    PhaseCounts(t, base, first, last);
    var m := base / t.elemSize;
    var k := (m + first + t.width - 1) / t.width;
    NextMultiple(m + first, t.width);
    var q := k * t.width - m;
    WholeWindowsAligned(t, base, q, k);
  }
}
