/** The toast notification manager: five vertical slots, a FIFO queue of
    waiting toasts, and visible toasts each holding a contiguous run of slots. */
module Toasts {

  /** Number of slots on screen. */
  const SlotCount: int := 5

  /** A toast and the number of slots it needs (the toast's height in slots). */
  datatype Toast = Toast(token: int, slotCount: int)

  /** A toast on screen, with the first slot it occupies. */
  datatype ToastInstance = ToastInstance(toast: Toast, firstSlot: int, slotCount: int)

  /** The manager: visible toasts, the occupied-slot bit set (as the set of
      its set bits), and the waiting queue (head first). */
  datatype ToastManager = ToastManager(visible: seq<ToastInstance>, occupied: set<int>, queued: seq<Toast>)

  // ---------------------------------------------------------------------------
  // Slot ranges
  // ---------------------------------------------------------------------------

  /** The slots `a .. b - 1`. */
  function Range(a: int, b: int): (r: set<int>)
    ensures forall t :: t in r <==> a <= t < b
  {
    set t | a <= t < b && Within(a, t, b)
  }

  /** Membership of the range, named so the comprehension has a trigger. */
  predicate Within(a: int, t: int, b: int) {
    a <= t < b
  }

  lemma {:induction false} RangeSize(a: int, b: int)
    requires a <= b
    ensures |Range(a, b)| == b - a
    decreases b - a
  {
    if a < b {
      RangeSize(a, b - 1);
      assert Range(a, b) == Range(a, b - 1) + {b - 1};
    } else {
      assert Range(a, b) == {};
    }
  }

  /** The slots a visible toast holds. */
  function Slots(v: ToastInstance): set<int> {
    Range(v.firstSlot, v.firstSlot + v.slotCount)
  }

  /** `i` consecutive free slots starting at `s`, all on screen. */
  predicate FreeRun(occupied: set<int>, s: int, i: int) {
    0 <= s && s + i <= SlotCount && forall t :: s <= t < s + i ==> t !in occupied
  }

  /** `freeSlotCount`. */
  function FreeSlotCount(occupied: set<int>): int {
    SlotCount - |occupied|
  }

  /** With the occupied slots on screen, the free-slot count is the number
      of on-screen slots that are not occupied. */
  lemma FreeSlotsCounted(occupied: set<int>)
    requires occupied <= Range(0, SlotCount)
    ensures FreeSlotCount(occupied) == |Range(0, SlotCount) - occupied|
  {
    RangeSize(0, SlotCount);
  }

  /** A free run of `i` slots among on-screen slots means at least `i` free
      slots in all. */
  lemma RunNeedsFreeSlots(occupied: set<int>, s: int, i: int)
    requires occupied <= Range(0, SlotCount)
    requires i >= 0 && FreeRun(occupied, s, i)
    ensures FreeSlotCount(occupied) >= i
  {
    RunNeedsFreeCells(occupied, s, i, SlotCount);
  }

  /** The same for a row of `n` cells. */
  lemma RunNeedsFreeCells(occupied: set<int>, s: int, i: int, n: int)
    requires occupied <= Range(0, n)
    requires i >= 0 && 0 <= s && s + i <= n
    requires forall t :: s <= t < s + i ==> t !in occupied
    ensures n - |occupied| >= i
  {
    OutsideRun(occupied, s, i, n);
    RangeSize(0, n);
    RangeSize(s, s + i);
    RunLeavesRoom(occupied, Range(0, n), Range(s, s + i), n, i);
  }

  /** The occupied cells lie outside a free run, which lies inside the row. */
  lemma OutsideRun(occupied: set<int>, s: int, i: int, n: int)
    requires occupied <= Range(0, n)
    requires 0 <= s && s + i <= n
    requires forall t :: s <= t < s + i ==> t !in occupied
    ensures occupied <= Range(0, n) - Range(s, s + i)
    ensures Range(s, s + i) <= Range(0, n)
  {
  }

  /** Slots outside a run of on-screen slots number at most the others. */
  lemma RunLeavesRoom<T>(occupied: set<T>, all: set<T>, run: set<T>, n: int, i: int)
    requires occupied <= all - run && run <= all
    requires |all| == n && |run| == i
    ensures n - |occupied| >= i
  {
    DifferenceSize(all, run);
    SubsetSize(occupied, all - run);
  }

  lemma DifferenceSize<T>(a: set<T>, b: set<T>)
    requires b <= a
    ensures |a - b| == |a| - |b|
  {
    assert a == (a - b) + b;
  }

  lemma SubsetSize<T>(a: set<T>, b: set<T>)
    requires a <= b
    ensures |a| <= |b|
  {
    assert b == a + (b - a);
  }

  // ---------------------------------------------------------------------------
  // Searching for free slots
  // ---------------------------------------------------------------------------

  /** The loop of `findFreeSlotsIndex` from slot `k` on, with `j` free slots
      counted just before `k`. */
  function Scan(occupied: set<int>, i: int, k: int, j: int): (r: int)
    requires 0 <= j <= k <= SlotCount
    ensures i <= 0 ==> r == -1
    ensures r == -1 || 0 <= r < SlotCount
    decreases SlotCount - k
  {
    if k == SlotCount then -1
    else if k in occupied then Scan(occupied, i, k + 1, 0)
    else if j + 1 == i then k + 1 - (j + 1)
    else Scan(occupied, i, k + 1, j + 1)
  }

  /** `findFreeSlotsIndex`: -1 when fewer than `i` slots are free in all;
      otherwise the scan for `i` consecutive free slots. */
  function FindFreeSlotsIndex(occupied: set<int>, i: int): (r: int)
    requires occupied <= Range(0, SlotCount)
    ensures r >= 0 ==> i >= 1 && FreeRun(occupied, r, i)
    ensures r >= 0 ==> forall s :: 0 <= s < r ==> !FreeRun(occupied, s, i)
    ensures r == -1 <==> forall s :: !FreeRun(occupied, s, i) || i <= 0
    ensures r == -1 || r >= 0
  {
    if FreeSlotCount(occupied) < i then
      NoRunWhenTooFull(occupied, i);
      -1
    else if i < 1 then
      Scan(occupied, i, 0, 0)
    else
      ScanFindsLowestRun(occupied, i, 0, 0);
      Scan(occupied, i, 0, 0)
  }

  lemma NoRunWhenTooFull(occupied: set<int>, i: int)
    requires occupied <= Range(0, SlotCount)
    requires FreeSlotCount(occupied) < i
    ensures forall s :: !FreeRun(occupied, s, i)
  {
    SubsetSize(occupied, Range(0, SlotCount));
    RangeSize(0, SlotCount);
    forall s | FreeRun(occupied, s, i) ensures false {
      RunNeedsFreeSlots(occupied, s, i);
    }
  }

  /** No run of `i` free slots ends at or before `k`. */
  ghost predicate NoRunBefore(occupied: set<int>, i: int, k: int) {
    forall s :: 0 <= s && s + i <= k ==> !FreeRun(occupied, s, i)
  }

  /** `r` is the lowest start of a free run of `i` slots, or -1 when there
      is none. */
  ghost predicate LowestRun(occupied: set<int>, i: int, r: int) {
    && (r >= 0 ==> FreeRun(occupied, r, i) && forall s :: 0 <= s < r ==> !FreeRun(occupied, s, i))
    && (r < 0 ==> r == -1 && forall s :: !FreeRun(occupied, s, i))
  }

  /** The scan finds the lowest free run: `j` counts the free slots just
      before `k`, the slot before them is occupied (or is the left edge), and
      no complete run fits before `k`. */
  lemma {:induction false} ScanFindsLowestRun(occupied: set<int>, i: int, k: int, j: int)
    requires 0 <= k <= SlotCount && 0 <= j <= k && 1 <= i && j < i
    requires forall t :: k - j <= t < k ==> t !in occupied
    requires k - j == 0 || k - j - 1 in occupied
    requires NoRunBefore(occupied, i, k)
    ensures LowestRun(occupied, i, Scan(occupied, i, k, j))
    decreases SlotCount - k
  {
    if k == SlotCount {
      ScanEnds(occupied, i, j);
    } else if k in occupied {
      NoRunThroughOccupied(occupied, i, k, j);
      ScanFindsLowestRun(occupied, i, k + 1, 0);
    } else if j + 1 == i {
      RunCompleted(occupied, i, k, j);
    } else {
      NoRunAfterBlock(occupied, i, k, j);
      ScanFindsLowestRun(occupied, i, k + 1, j + 1);
    }
  }

  /** At the right edge no run is left to find. */
  lemma ScanEnds(occupied: set<int>, i: int, j: int)
    requires 0 <= j <= SlotCount && NoRunBefore(occupied, i, SlotCount)
    ensures LowestRun(occupied, i, Scan(occupied, i, SlotCount, j))
  {
    assert forall s :: FreeRun(occupied, s, i) ==> 0 <= s && s + i <= SlotCount;
  }

  /** The free slot `k` completes a run of `i` after `j` free ones: that run
      is free and no run before it is. */
  lemma RunCompleted(occupied: set<int>, i: int, k: int, j: int)
    requires 0 <= j <= k < SlotCount && j + 1 == i && k !in occupied
    requires forall t :: k - j <= t < k ==> t !in occupied
    requires k - j == 0 || k - j - 1 in occupied
    requires NoRunBefore(occupied, i, k)
    ensures LowestRun(occupied, i, Scan(occupied, i, k, j))
  {
    assert Scan(occupied, i, k, j) == k - j;
    assert forall s :: FreeRun(occupied, s, i) && s < k - j ==> s + i <= k;
  }

  /** No run ending at an occupied slot `k` is free, and the scan restarts
      after it. */
  lemma NoRunThroughOccupied(occupied: set<int>, i: int, k: int, j: int)
    requires 0 <= j <= k < SlotCount && k in occupied && 1 <= i
    requires NoRunBefore(occupied, i, k)
    ensures NoRunBefore(occupied, i, k + 1)
    ensures Scan(occupied, i, k, j) == Scan(occupied, i, k + 1, 0)
  {
    forall s | 0 <= s && s + i <= k + 1 ensures !FreeRun(occupied, s, i) {
      if s + i == k + 1 {
        assert s <= k < s + i;
      }
    }
  }

  /** With fewer than `i - 1` free slots before the free slot `k` since the
      last occupied one, no run ending at `k` is free, and the scan counts
      `k` as one more free slot. */
  lemma NoRunAfterBlock(occupied: set<int>, i: int, k: int, j: int)
    requires 0 <= j <= k < SlotCount && j + 1 < i && k !in occupied
    requires forall t :: k - j <= t < k ==> t !in occupied
    requires k - j == 0 || k - j - 1 in occupied
    requires NoRunBefore(occupied, i, k)
    ensures NoRunBefore(occupied, i, k + 1)
    ensures forall t :: k + 1 - (j + 1) <= t < k + 1 ==> t !in occupied
    ensures Scan(occupied, i, k, j) == Scan(occupied, i, k + 1, j + 1)
  {
    forall s | 0 <= s && s + i <= k + 1 ensures !FreeRun(occupied, s, i) {
      if s + i == k + 1 {
        assert s <= k - j - 1 < s + i;
      }
    }
  }

  // ---------------------------------------------------------------------------
  // Manager state
  // ---------------------------------------------------------------------------

  /** The slots held by a list of visible toasts. */
  function Covered(vis: seq<ToastInstance>): set<int> {
    if |vis| == 0 then {} else Slots(vis[0]) + Covered(vis[1..])
  }

  /** No two visible toasts share a slot. */
  predicate Disjoint(vis: seq<ToastInstance>) {
    |vis| == 0 || (Slots(vis[0]) !! Covered(vis[1..]) && Disjoint(vis[1..]))
  }

  /** A visible toast holds at least one slot, all of them on screen. */
  predicate OnScreen(v: ToastInstance) {
    1 <= v.slotCount && 0 <= v.firstSlot && v.firstSlot + v.slotCount <= SlotCount
  }

  /** The manager's invariant: the bit set is exactly the union of the
      visible toasts' slot runs, which lie on screen and never overlap. */
  predicate Valid(m: ToastManager) {
    ValidSlots(m.visible, m.occupied)
  }

  predicate ValidSlots(vis: seq<ToastInstance>, occupied: set<int>) {
    && (forall v :: v in vis ==> OnScreen(v))
    && Disjoint(vis)
    && occupied == Covered(vis)
    && occupied <= Range(0, SlotCount)
  }

  lemma {:induction false} CoveredConcat(a: seq<ToastInstance>, b: seq<ToastInstance>)
    ensures Covered(a + b) == Covered(a) + Covered(b)
  {
    if |a| > 0 {
      assert (a + b)[1..] == a[1..] + b;
      CoveredConcat(a[1..], b);
    } else {
      assert a + b == b;
    }
  }

  lemma {:induction false} CoveredOnScreen(vis: seq<ToastInstance>)
    requires forall v :: v in vis ==> OnScreen(v)
    ensures Covered(vis) <= Range(0, SlotCount)
  {
    if |vis| > 0 {
      assert vis[0] in vis;
      assert forall v :: v in vis[1..] ==> v in vis;
      CoveredOnScreen(vis[1..]);
    }
  }

  lemma {:induction false} DisjointAppend(vis: seq<ToastInstance>, x: ToastInstance)
    requires Disjoint(vis) && Slots(x) !! Covered(vis)
    ensures Disjoint(vis + [x])
  {
    if |vis| > 0 {
      assert (vis + [x])[1..] == vis[1..] + [x];
      CoveredConcat(vis[1..], [x]);
      assert Covered([x]) == Slots(x) by { assert [x][1..] == []; }
      DisjointAppend(vis[1..], x);
    } else {
      assert Covered([x][1..]) == {} by { assert [x][1..] == []; }
    }
  }

  /** Under `Disjoint`, any two distinct visible toasts hold disjoint runs. */
  lemma {:induction false} DisjointPairwise(vis: seq<ToastInstance>, a: int, b: int)
    requires Disjoint(vis) && 0 <= a < b < |vis|
    ensures Slots(vis[a]) !! Slots(vis[b])
  {
    if a == 0 {
      CoveredHolds(vis[1..], b - 1);
    } else {
      DisjointPairwise(vis[1..], a - 1, b - 1);
    }
  }

  lemma {:induction false} CoveredHolds(vis: seq<ToastInstance>, a: int)
    requires 0 <= a < |vis|
    ensures Slots(vis[a]) <= Covered(vis)
  {
    if a > 0 {
      CoveredHolds(vis[1..], a - 1);
    }
  }

  // ---------------------------------------------------------------------------
  // Removing finished toasts
  // ---------------------------------------------------------------------------

  /** The visible toasts that have not finished, in order. */
  function Unfinished(vis: seq<ToastInstance>, finished: set<ToastInstance>): (r: seq<ToastInstance>)
    ensures |r| <= |vis|
    ensures forall v :: v in r <==> v in vis && v !in finished
  {
    if |vis| == 0 then []
    else
      var rest := Unfinished(vis[1..], finished);
      assert forall v :: v in vis <==> v == vis[0] || v in vis[1..];
      (if vis[0] in finished then [] else [vis[0]]) + rest
  }

  /** The visible toasts that have finished, in order. */
  function FinishedOnes(vis: seq<ToastInstance>, finished: set<ToastInstance>): seq<ToastInstance>
  {
    if |vis| == 0 then []
    else (if vis[0] in finished then [vis[0]] else []) + FinishedOnes(vis[1..], finished)
  }

  /** The first `removeIf` of `update`: clear the slots of every finished
      toast, one toast at a time. */
  function ClearFinished(occupied: set<int>, vis: seq<ToastInstance>, finished: set<ToastInstance>): set<int>
  {
    if |vis| == 0 then occupied
    else ClearFinished(if vis[0] in finished then occupied - Slots(vis[0]) else occupied, vis[1..], finished)
  }

  /** Clearing one by one removes exactly the finished toasts' slots. */
  lemma {:induction false} ClearFinishedExact(occupied: set<int>, vis: seq<ToastInstance>, finished: set<ToastInstance>)
    ensures ClearFinished(occupied, vis, finished) == occupied - Covered(FinishedOnes(vis, finished))
  {
    if |vis| > 0 {
      var occ := if vis[0] in finished then occupied - Slots(vis[0]) else occupied;
      ClearFinishedExact(occ, vis[1..], finished);
      var f := FinishedOnes(vis[1..], finished);
      if vis[0] in finished {
        assert FinishedOnes(vis, finished) == [vis[0]] + f;
        assert ([vis[0]] + f)[1..] == f;
      } else {
        assert FinishedOnes(vis, finished) == f;
      }
    }
  }

  /** Splitting the visible toasts into finished and unfinished ones splits
      their slots into two disjoint parts. */
  lemma {:induction false} SplitCovered(vis: seq<ToastInstance>, finished: set<ToastInstance>)
    requires Disjoint(vis)
    ensures Covered(vis) == Covered(Unfinished(vis, finished)) + Covered(FinishedOnes(vis, finished))
    ensures Covered(Unfinished(vis, finished)) !! Covered(FinishedOnes(vis, finished))
    ensures Disjoint(Unfinished(vis, finished))
  {
    if |vis| > 0 {
      var v := vis[0];
      var u := Unfinished(vis[1..], finished);
      var f := FinishedOnes(vis[1..], finished);
      SplitCovered(vis[1..], finished);
      if v in finished {
        assert Unfinished(vis, finished) == u;
        assert FinishedOnes(vis, finished) == [v] + f;
        assert ([v] + f)[1..] == f;
      } else {
        assert Unfinished(vis, finished) == [v] + u;
        assert FinishedOnes(vis, finished) == f;
        assert ([v] + u)[1..] == u;
      }
    }
  }

  // ---------------------------------------------------------------------------
  // Showing queued toasts
  // ---------------------------------------------------------------------------

  datatype Placement = Placement(occupied: set<int>, visible: seq<ToastInstance>, stay: seq<Toast>)

  /** The second `removeIf` of `update`: walk the queue head first; a toast
      that finds a free run is shown there, the others stay queued. */
  function Place(occupied: set<int>, vis: seq<ToastInstance>, queue: seq<Toast>): (r: Placement)
    requires occupied <= Range(0, SlotCount)
    ensures r.occupied <= Range(0, SlotCount)
    ensures |vis| <= |r.visible|
    decreases |queue|
  {
    if |queue| == 0 then Placement(occupied, vis, [])
    else
      var t := queue[0];
      var j := FindFreeSlotsIndex(occupied, t.slotCount);
      if j == -1 then
        var r := Place(occupied, vis, queue[1..]);
        Placement(r.occupied, r.visible, [t] + r.stay)
      else
        var x := ToastInstance(t, j, t.slotCount);
        ShownOnScreen(occupied, x);
        var r := Place(occupied + Slots(x), vis + [x], queue[1..]);
        r
  }

  lemma ShorterPrefix<T>(s: seq<T>, a: seq<T>, x: T)
    requires |a| + 1 <= |s| && s[..|a| + 1] == a + [x]
    ensures |a| <= |s| && s[..|a|] == a
  {
    assert s[..|a|] == (a + [x])[..|a|];
  }

  /** Placing only adds toasts after the ones already shown. */
  lemma {:induction false} PlaceExtends(occupied: set<int>, vis: seq<ToastInstance>, queue: seq<Toast>)
    requires occupied <= Range(0, SlotCount)
    ensures Place(occupied, vis, queue).visible[..|vis|] == vis
    decreases |queue|
  {
    if |queue| > 0 {
      var t := queue[0];
      var j := FindFreeSlotsIndex(occupied, t.slotCount);
      if j == -1 {
        PlaceExtends(occupied, vis, queue[1..]);
      } else {
        var x := ToastInstance(t, j, t.slotCount);
        ShownOnScreen(occupied, x);
        PlaceExtends(occupied + Slots(x), vis + [x], queue[1..]);
        ShorterPrefix(Place(occupied + Slots(x), vis + [x], queue[1..]).visible, vis, x);
      }
    }
  }

  /** Placing never queues more toasts than it was given. */
  lemma {:induction false} PlaceKeepsQueueShort(occupied: set<int>, vis: seq<ToastInstance>, queue: seq<Toast>)
    requires occupied <= Range(0, SlotCount)
    ensures |Place(occupied, vis, queue).stay| <= |queue|
    decreases |queue|
  {
    if |queue| > 0 {
      var t := queue[0];
      var j := FindFreeSlotsIndex(occupied, t.slotCount);
      if j == -1 {
        PlaceKeepsQueueShort(occupied, vis, queue[1..]);
      } else {
        var x := ToastInstance(t, j, t.slotCount);
        ShownOnScreen(occupied, x);
        PlaceKeepsQueueShort(occupied + Slots(x), vis + [x], queue[1..]);
      }
    }
  }

  /** The toasts of a list of visible toasts. */
  function ToastsOf(vis: seq<ToastInstance>): (r: seq<Toast>)
    ensures |r| == |vis|
  {
    if |vis| == 0 then [] else [vis[0].toast] + ToastsOf(vis[1..])
  }

  /** `q` is `a` and `b` merged, each keeping its own order. */
  predicate Interleaving(a: seq<Toast>, b: seq<Toast>, q: seq<Toast>)
    decreases |q|
  {
    if |q| == 0 then a == [] && b == []
    else
      || (|a| > 0 && a[0] == q[0] && Interleaving(a[1..], b, q[1..]))
      || (|b| > 0 && b[0] == q[0] && Interleaving(a, b[1..], q[1..]))
  }

  /** Placement keeps the manager's invariant. */
  lemma {:induction false} PlaceValid(occupied: set<int>, vis: seq<ToastInstance>, queue: seq<Toast>)
    requires ValidSlots(vis, occupied)
    ensures var r := Place(occupied, vis, queue); ValidSlots(r.visible, r.occupied)
    decreases |queue|
  {
    if |queue| > 0 {
      var t := queue[0];
      var j := FindFreeSlotsIndex(occupied, t.slotCount);
      if j == -1 {
        PlaceValid(occupied, vis, queue[1..]);
      } else {
        var x := ToastInstance(t, j, t.slotCount);
        ShowKeepsValid(occupied, vis, x);
        PlaceValid(occupied + Slots(x), vis + [x], queue[1..]);
      }
    }
  }

  /** Placement is first in, first out: the toasts shown and the toasts
      still waiting are the queue split in two, each part in queue order. */
  lemma {:induction false} PlaceFifo(occupied: set<int>, vis: seq<ToastInstance>, queue: seq<Toast>)
    requires occupied <= Range(0, SlotCount)
    ensures var r := Place(occupied, vis, queue);
            Interleaving(ToastsOf(r.visible[|vis|..]), r.stay, queue)
    decreases |queue|
  {
    var r := Place(occupied, vis, queue);
    if |queue| == 0 {
      assert r.visible[|vis|..] == [];
    } else {
      var t := queue[0];
      var j := FindFreeSlotsIndex(occupied, t.slotCount);
      if j == -1 {
        var r' := Place(occupied, vis, queue[1..]);
        PlaceFifo(occupied, vis, queue[1..]);
        SkipStep(occupied, vis, queue);
        InterleaveRight(ToastsOf(r'.visible[|vis|..]), r'.stay, queue);
      } else {
        var x := ToastInstance(t, j, t.slotCount);
        ShownOnScreen(occupied, x);
        PlaceFifo(occupied + Slots(x), vis + [x], queue[1..]);
        var rest := ShowStep(occupied, vis, queue, x);
        InterleaveLeft(ToastsOf(rest), r.stay, queue);
      }
    }
  }

  /** The head of the queue finds no room: it stays, ahead of the rest. */
  lemma SkipStep(occupied: set<int>, vis: seq<ToastInstance>, queue: seq<Toast>)
    requires occupied <= Range(0, SlotCount) && |queue| > 0
    requires FindFreeSlotsIndex(occupied, queue[0].slotCount) == -1
    ensures Place(occupied, vis, queue).occupied == Place(occupied, vis, queue[1..]).occupied
    ensures Place(occupied, vis, queue).visible == Place(occupied, vis, queue[1..]).visible
    ensures Place(occupied, vis, queue).stay == [queue[0]] + Place(occupied, vis, queue[1..]).stay
  {
  }

  /** The head of the queue is shown as `x`: placement goes on with the rest
      of the queue, from the slots `x` took and with `x` on screen. */
  lemma ShowUnfold(occupied: set<int>, vis: seq<ToastInstance>, queue: seq<Toast>, x: ToastInstance)
    requires occupied <= Range(0, SlotCount) && |queue| > 0
    requires x == ToastInstance(queue[0], FindFreeSlotsIndex(occupied, queue[0].slotCount), queue[0].slotCount)
    requires x.firstSlot != -1
    requires occupied + Slots(x) <= Range(0, SlotCount)
    ensures Taken(occupied, queue[0]) == occupied + Slots(x)
    ensures Place(occupied, vis, queue) == Place(occupied + Slots(x), vis + [x], queue[1..])
  {
  }

  /** The head of the queue is shown as `x`: the newly shown toasts are `x`
      and then the ones the rest of the queue shows, and the kept toasts are
      the ones the rest of the queue keeps. */
  lemma {:induction false} ShowRest(occupied: set<int>, vis: seq<ToastInstance>, queue: seq<Toast>, x: ToastInstance)
    requires occupied <= Range(0, SlotCount) && |queue| > 0
    requires x == ToastInstance(queue[0], FindFreeSlotsIndex(occupied, queue[0].slotCount), queue[0].slotCount)
    requires x.firstSlot != -1
    requires occupied + Slots(x) <= Range(0, SlotCount)
    ensures Place(occupied, vis, queue).visible[|vis|..]
      == [x] + Place(occupied + Slots(x), vis + [x], queue[1..]).visible[|vis| + 1..]
    ensures Place(occupied, vis, queue).stay == Place(occupied + Slots(x), vis + [x], queue[1..]).stay
  {
    ShowUnfold(occupied, vis, queue, x);
    var r := Place(occupied + Slots(x), vis + [x], queue[1..]);
    PlaceExtends(occupied + Slots(x), vis + [x], queue[1..]);
    var rest := ShownFirst(r.visible, vis, x);
  }

  /** The head of the queue is shown as `x`: it comes first among the shown,
      ahead of what the rest of the queue shows. */
  lemma ShowStep(occupied: set<int>, vis: seq<ToastInstance>, queue: seq<Toast>, x: ToastInstance)
    returns (rest: seq<ToastInstance>)
    requires occupied <= Range(0, SlotCount) && |queue| > 0
    requires x == ToastInstance(queue[0], FindFreeSlotsIndex(occupied, queue[0].slotCount), queue[0].slotCount)
    requires x.firstSlot != -1
    requires occupied + Slots(x) <= Range(0, SlotCount)
    ensures var r := Place(occupied, vis, queue);
      && rest == r.visible[|vis| + 1..]
      && ToastsOf(r.visible[|vis|..]) == [queue[0]] + ToastsOf(rest)
  {
    var r := Place(occupied + Slots(x), vis + [x], queue[1..]);
    assert Place(occupied, vis, queue) == r;
    PlaceExtends(occupied + Slots(x), vis + [x], queue[1..]);
    rest := ShownFirst(r.visible, vis, x);
  }

  /** A list that starts with `vis + [x]` lists `x` first after `vis`. */
  lemma ShownFirst(all: seq<ToastInstance>, vis: seq<ToastInstance>, x: ToastInstance)
    returns (rest: seq<ToastInstance>)
    requires |vis| + 1 <= |all| && all[..|vis| + 1] == vis + [x]
    ensures rest == all[|vis| + 1..] && all[|vis|..] == [x] + rest
    ensures ToastsOf(all[|vis|..]) == [x.toast] + ToastsOf(rest)
  {
    rest := all[|vis| + 1..];
    assert all[|vis|..] == [x] + rest by {
      assert all[|vis|] == x;
    }
    assert ([x] + rest)[1..] == rest;
  }

  /** A toast shown on a free run holds on-screen slots only. */
  lemma ShownOnScreen(occupied: set<int>, x: ToastInstance)
    requires occupied <= Range(0, SlotCount)
    requires FreeRun(occupied, x.firstSlot, x.slotCount)
    ensures occupied + Slots(x) <= Range(0, SlotCount)
  {
  }

  /** With nothing shown, the whole queue stays. */
  lemma {:induction false} NothingShown(q: seq<Toast>)
    ensures Interleaving([], q, q)
    decreases |q|
  {
    if |q| > 0 {
      NothingShown(q[1..]);
      InterleaveRight([], q[1..], q);
      assert [q[0]] + q[1..] == q;
    }
  }

  lemma InterleaveLeft(a: seq<Toast>, b: seq<Toast>, q: seq<Toast>)
    requires |q| > 0 && Interleaving(a, b, q[1..])
    ensures Interleaving([q[0]] + a, b, q)
  {
    assert ([q[0]] + a)[1..] == a;
  }

  lemma InterleaveRight(a: seq<Toast>, b: seq<Toast>, q: seq<Toast>)
    requires |q| > 0 && Interleaving(a, b, q[1..])
    ensures Interleaving(a, [q[0]] + b, q)
  {
    assert ([q[0]] + b)[1..] == b;
  }

  /** Showing a toast on a free run keeps the invariant. */
  lemma ShowKeepsValid(occupied: set<int>, vis: seq<ToastInstance>, x: ToastInstance)
    requires ValidSlots(vis, occupied)
    requires x.slotCount >= 1 && FreeRun(occupied, x.firstSlot, x.slotCount)
    ensures ValidSlots(vis + [x], occupied + Slots(x))
  {
    assert OnScreen(x);
    assert Slots(x) !! occupied;
    DisjointAppend(vis, x);
    CoveredConcat(vis, [x]);
    assert Covered([x]) == Slots(x) by { assert [x][1..] == []; }
    assert forall v :: v in vis + [x] ==> v in vis || v == x;
  }

  // ---------------------------------------------------------------------------
  // Turn by turn: what each queued toast finds when its turn comes
  // ---------------------------------------------------------------------------

  /** The slots held after toast `t` has had its turn: the lowest free run
      of its size if there is one, nothing more otherwise. */
  function Taken(occupied: set<int>, t: Toast): (r: set<int>)
    requires occupied <= Range(0, SlotCount)
    ensures occupied <= r <= Range(0, SlotCount)
    ensures FindFreeSlotsIndex(occupied, t.slotCount) == -1 ==> r == occupied
    ensures FindFreeSlotsIndex(occupied, t.slotCount) != -1 ==> |r| == |occupied| + t.slotCount
  {
    var j := FindFreeSlotsIndex(occupied, t.slotCount);
    if j == -1 then occupied
    else
      var x := ToastInstance(t, j, t.slotCount);
      ShownOnScreen(occupied, x);
      FreshSlots(occupied, x);
      occupied + Slots(x)
  }

  lemma FreshSlots(occupied: set<int>, x: ToastInstance)
    requires x.slotCount >= 1 && FreeRun(occupied, x.firstSlot, x.slotCount)
    ensures |occupied + Slots(x)| == |occupied| + x.slotCount
  {
    assert Slots(x) !! occupied;
    RangeSize(x.firstSlot, x.firstSlot + x.slotCount);
  }

  /** The slots held when the `k`-th queued toast's turn comes. */
  function OccAt(occupied: set<int>, queue: seq<Toast>, k: int): (r: set<int>)
    requires occupied <= Range(0, SlotCount) && 0 <= k <= |queue|
    ensures occupied <= r <= Range(0, SlotCount)
    decreases k
  {
    if k == 0 then occupied else OccAt(Taken(occupied, queue[0]), queue[1..], k - 1)
  }

  /** How many of the first `k` queued toasts found room. */
  function ShownBefore(occupied: set<int>, queue: seq<Toast>, k: int): (r: nat)
    requires occupied <= Range(0, SlotCount) && 0 <= k <= |queue|
    ensures r <= k
    decreases k
  {
    if k == 0 then 0
    else
      (if FindFreeSlotsIndex(occupied, queue[0].slotCount) == -1 then 0 else 1)
      + ShownBefore(Taken(occupied, queue[0]), queue[1..], k - 1)
  }

  /** The fate of the `k`-th queued toast, given the toasts newly `shown`
      and the ones that `stay`: if a run of its size is free in the slots
      held at its turn, it is shown at the lowest such run, right after the
      toasts shown before it; otherwise it stays queued, right after the
      toasts kept before it. */
  ghost predicate TurnTaken(occupied: set<int>, queue: seq<Toast>, k: int, shown: seq<ToastInstance>, stay: seq<Toast>)
    requires occupied <= Range(0, SlotCount) && 0 <= k < |queue|
  {
    var j := FindFreeSlotsIndex(OccAt(occupied, queue, k), queue[k].slotCount);
    var n := ShownBefore(occupied, queue, k);
    if j == -1 then k - n < |stay| && stay[k - n] == queue[k]
    else n < |shown| && shown[n] == ToastInstance(queue[k], j, queue[k].slotCount)
  }

  /** Placement decides every queued toast by the slots held at its turn:
      shown exactly when a free run of its size exists then. */
  lemma {:induction false} PlaceTurns(occupied: set<int>, vis: seq<ToastInstance>, queue: seq<Toast>, k: int)
    requires occupied <= Range(0, SlotCount) && 0 <= k < |queue|
    ensures var r := Place(occupied, vis, queue);
      TurnTaken(occupied, queue, k, r.visible[|vis|..], r.stay)
    decreases k, 1
  {
    var t := queue[0];
    var j := FindFreeSlotsIndex(occupied, t.slotCount);
    if k == 0 {
      HeadTurn(occupied, vis, queue);
    } else if j == -1 {
      SkipPlaceTurn(occupied, vis, queue, k);
    } else {
      var x := ToastInstance(t, j, t.slotCount);
      ShownOnScreen(occupied, x);
      ShowPlaceTurn(occupied, vis, queue, k, x);
    }
  }

  /** The inductive step of `PlaceTurns` when the head stays queued. */
  lemma {:induction false} SkipPlaceTurn(occupied: set<int>, vis: seq<ToastInstance>, queue: seq<Toast>, k: int)
    requires occupied <= Range(0, SlotCount) && 0 < k < |queue|
    requires FindFreeSlotsIndex(occupied, queue[0].slotCount) == -1
    ensures var r := Place(occupied, vis, queue);
      TurnTaken(occupied, queue, k, r.visible[|vis|..], r.stay)
    decreases k, 0
  {
    var shown, stay := RestTurn(occupied, vis, queue[1..], k - 1);
    SkipTurn(occupied, queue, k, shown, stay);
    SkipStep(occupied, vis, queue);
  }

  /** The inductive step of `PlaceTurns` when the head is shown as `x`. */
  lemma {:induction false} ShowPlaceTurn(occupied: set<int>, vis: seq<ToastInstance>, queue: seq<Toast>, k: int, x: ToastInstance)
    requires occupied <= Range(0, SlotCount) && 0 < k < |queue|
    requires x == ToastInstance(queue[0], FindFreeSlotsIndex(occupied, queue[0].slotCount), queue[0].slotCount)
    requires x.firstSlot != -1
    requires occupied + Slots(x) <= Range(0, SlotCount)
    ensures var r := Place(occupied, vis, queue);
      TurnTaken(occupied, queue, k, r.visible[|vis|..], r.stay)
    decreases k, 0
  {
    var after := occupied + Slots(x);
    assert Taken(occupied, queue[0]) == after;
    var shown, stay := RestTurn(after, vis + [x], queue[1..], k - 1);
    ShownStep(occupied, after, queue, k, x, shown, stay);
    ShowRest(occupied, vis, queue, x);
  }

  /** `PlaceTurns` for the rest of the queue, with the toasts it newly shows
      and the ones it keeps named. */
  lemma {:induction false} RestTurn(occupied: set<int>, vis: seq<ToastInstance>, queue: seq<Toast>, k: int)
    returns (shown: seq<ToastInstance>, stay: seq<Toast>)
    requires occupied <= Range(0, SlotCount) && 0 <= k < |queue|
    ensures var r := Place(occupied, vis, queue);
      shown == r.visible[|vis|..] && stay == r.stay
    ensures TurnTaken(occupied, queue, k, shown, stay)
    decreases k, 2
  {
    PlaceTurns(occupied, vis, queue, k);
    var r := Place(occupied, vis, queue);
    shown, stay := r.visible[|vis|..], r.stay;
  }

  /** The head of the queue is decided by the slots free at the start. */
  lemma {:induction false} HeadTurn(occupied: set<int>, vis: seq<ToastInstance>, queue: seq<Toast>)
    requires occupied <= Range(0, SlotCount) && 0 < |queue|
    ensures var r := Place(occupied, vis, queue);
      TurnTaken(occupied, queue, 0, r.visible[|vis|..], r.stay)
  {
    var t := queue[0];
    var j := FindFreeSlotsIndex(occupied, t.slotCount);
    if j == -1 {
      SkipStep(occupied, vis, queue);
    } else {
      var x := ToastInstance(t, j, t.slotCount);
      ShownOnScreen(occupied, x);
      var r := Place(occupied + Slots(x), vis + [x], queue[1..]);
      assert Place(occupied, vis, queue) == r;
      PlaceExtends(occupied + Slots(x), vis + [x], queue[1..]);
      assert r.visible[|vis|] == (vis + [x])[|vis|];
    }
  }

  /** A later turn after the head stayed queued is the same turn of the
      rest of the queue, one kept toast further along. */
  lemma SkipTurn(occupied: set<int>, queue: seq<Toast>, k: int, shown: seq<ToastInstance>, stay: seq<Toast>)
    requires occupied <= Range(0, SlotCount) && 0 < k < |queue|
    requires FindFreeSlotsIndex(occupied, queue[0].slotCount) == -1
    ensures TurnTaken(occupied, queue[1..], k - 1, shown, stay) ==> TurnTaken(occupied, queue, k, shown, [queue[0]] + stay)
  {
    assert queue[1..][k - 1] == queue[k];
    assert Taken(occupied, queue[0]) == occupied;
    assert OccAt(occupied, queue, k) == OccAt(occupied, queue[1..], k - 1);
    var n := ShownBefore(occupied, queue[1..], k - 1);
    assert ShownBefore(occupied, queue, k) == n;
    assert k - n - 1 < |stay| ==> ([queue[0]] + stay)[k - n] == stay[k - n - 1];
  }

  /** A turn of the rest of the queue, started from the slots the shown head
      took, is the same turn of the whole queue, one shown toast along. */
  lemma {:induction false} ShownStep(occupied: set<int>, after: set<int>, queue: seq<Toast>, k: int, x: ToastInstance,
                  shown: seq<ToastInstance>, stay: seq<Toast>)
    requires occupied <= Range(0, SlotCount) && 0 < k < |queue|
    requires x == ToastInstance(queue[0], FindFreeSlotsIndex(occupied, queue[0].slotCount), queue[0].slotCount)
    requires x.firstSlot != -1
    requires after == Taken(occupied, queue[0]) && after <= Range(0, SlotCount)
    ensures TurnTaken(after, queue[1..], k - 1, shown, stay) ==> TurnTaken(occupied, queue, k, [x] + shown, stay)
  {
    assert queue[1..][k - 1] == queue[k];
    assert OccAt(occupied, queue, k) == OccAt(after, queue[1..], k - 1);
    assert ShownBefore(occupied, queue, k) == 1 + ShownBefore(after, queue[1..], k - 1);
  }

  /** One turn of placement: the head is shown when a run of its size is
      free and kept otherwise, and placement goes on with the rest of the
      queue from the slots held after it, one turn further along. */
  lemma PlaceStep(occupied: set<int>, vis: seq<ToastInstance>, queue: seq<Toast>)
    returns (after: set<int>, vis': seq<ToastInstance>, d: nat)
    requires occupied <= Range(0, SlotCount) && |queue| > 0
    ensures d == if FindFreeSlotsIndex(occupied, queue[0].slotCount) == -1 then 0 else 1
    ensures after == Taken(occupied, queue[0]) && after <= Range(0, SlotCount)
    ensures var r, r' := Place(occupied, vis, queue), Place(after, vis', queue[1..]);
      && |vis'| == |vis| + d
      && r.occupied == r'.occupied
      && |r.visible| == |r'.visible|
      && |r.stay| + d == |r'.stay| + 1
    ensures ShownBefore(occupied, queue, |queue|) == d + ShownBefore(after, queue[1..], |queue| - 1)
    ensures OccAt(occupied, queue, |queue|) == OccAt(after, queue[1..], |queue| - 1)
  {
    var t := queue[0];
    var j := FindFreeSlotsIndex(occupied, t.slotCount);
    if j == -1 {
      after, vis', d := occupied, vis, 0;
      SkipStep(occupied, vis, queue);
      assert Taken(occupied, t) == occupied;
    } else {
      var x := ToastInstance(t, j, t.slotCount);
      ShownOnScreen(occupied, x);
      after, vis', d := occupied + Slots(x), vis + [x], 1;
      ShowUnfold(occupied, vis, queue, x);
    }
  }

  /** Placement ends with the slots held after the last turn, shows as many
      toasts as found room and keeps the others. */
  lemma {:induction false} PlaceTotals(occupied: set<int>, vis: seq<ToastInstance>, queue: seq<Toast>)
    requires occupied <= Range(0, SlotCount)
    ensures var r := Place(occupied, vis, queue);
      && r.occupied == OccAt(occupied, queue, |queue|)
      && |r.visible| == |vis| + ShownBefore(occupied, queue, |queue|)
      && |r.stay| == |queue| - ShownBefore(occupied, queue, |queue|)
  {
    PlaceOccupied(occupied, vis, queue);
    PlaceShownCount(occupied, vis, queue);
    PlaceStayCount(occupied, vis, queue);
  }

  /** Placement ends with the slots held after the last turn. */
  lemma {:induction false} PlaceOccupied(occupied: set<int>, vis: seq<ToastInstance>, queue: seq<Toast>)
    requires occupied <= Range(0, SlotCount)
    ensures Place(occupied, vis, queue).occupied == OccAt(occupied, queue, |queue|)
    decreases |queue|
  {
    if |queue| > 0 {
      var after, vis', _ := PlaceStep(occupied, vis, queue);
      PlaceOccupied(after, vis', queue[1..]);
    }
  }

  /** Placement shows one toast for every turn that found room. */
  lemma {:induction false} PlaceShownCount(occupied: set<int>, vis: seq<ToastInstance>, queue: seq<Toast>)
    requires occupied <= Range(0, SlotCount)
    ensures |Place(occupied, vis, queue).visible| == |vis| + ShownBefore(occupied, queue, |queue|)
    decreases |queue|
  {
    if |queue| > 0 {
      var after, vis', _ := PlaceStep(occupied, vis, queue);
      PlaceShownCount(after, vis', queue[1..]);
    }
  }

  /** Placement keeps queued every toast whose turn found no room. */
  lemma PlaceStayCount(occupied: set<int>, vis: seq<ToastInstance>, queue: seq<Toast>)
    requires occupied <= Range(0, SlotCount)
    ensures |Place(occupied, vis, queue).stay| == |queue| - ShownBefore(occupied, queue, |queue|)
  {
    PlaceShownCount(occupied, vis, queue);
    PlaceConserves(occupied, vis, queue);
  }

  /** Every queued toast is either shown or kept, none lost or doubled. */
  lemma {:induction false} PlaceConserves(occupied: set<int>, vis: seq<ToastInstance>, queue: seq<Toast>)
    requires occupied <= Range(0, SlotCount)
    ensures var r := Place(occupied, vis, queue); |r.visible| + |r.stay| == |vis| + |queue|
    decreases |queue|
  {
    if |queue| > 0 {
      var after, vis', _ := PlaceStep(occupied, vis, queue);
      PlaceConserves(after, vis', queue[1..]);
    }
  }

  /** A run that is not free stays not free when more slots are held. */
  lemma NoRoomInLarger(small: set<int>, big: set<int>, i: int)
    requires small <= big <= Range(0, SlotCount)
    requires FindFreeSlotsIndex(small, i) == -1
    ensures FindFreeSlotsIndex(big, i) == -1
  {
    forall s | FreeRun(big, s, i) ensures i <= 0 {
      assert FreeRun(small, s, i);
    }
  }

  /** No toast left in the queue fits into the slots still free after
      placement. */
  lemma {:induction false} PlaceLeavesNoRoom(occupied: set<int>, vis: seq<ToastInstance>, queue: seq<Toast>)
    requires occupied <= Range(0, SlotCount)
    ensures var r := Place(occupied, vis, queue);
      && occupied <= r.occupied
      && forall t :: t in r.stay ==> FindFreeSlotsIndex(r.occupied, t.slotCount) == -1
    decreases |queue|
  {
    if |queue| > 0 {
      var t := queue[0];
      var j := FindFreeSlotsIndex(occupied, t.slotCount);
      var r := Place(occupied, vis, queue);
      if j == -1 {
        PlaceLeavesNoRoom(occupied, vis, queue[1..]);
        NoRoomInLarger(occupied, r.occupied, t.slotCount);
        assert forall u :: u in r.stay ==> u == t || u in Place(occupied, vis, queue[1..]).stay;
      } else {
        var x := ToastInstance(t, j, t.slotCount);
        ShownOnScreen(occupied, x);
        PlaceLeavesNoRoom(occupied + Slots(x), vis + [x], queue[1..]);
      }
    }
  }

  /** When no queued toast fits, placement changes nothing. */
  lemma {:induction false} PlaceNoRoom(occupied: set<int>, vis: seq<ToastInstance>, queue: seq<Toast>)
    requires occupied <= Range(0, SlotCount)
    requires forall k :: 0 <= k < |queue| ==> FindFreeSlotsIndex(occupied, queue[k].slotCount) == -1
    ensures Place(occupied, vis, queue) == Placement(occupied, vis, queue)
    decreases |queue|
  {
    if |queue| > 0 {
      assert forall k :: 0 <= k < |queue| - 1 ==> queue[1..][k] == queue[k + 1];
      PlaceNoRoom(occupied, vis, queue[1..]);
      assert [queue[0]] + queue[1..] == queue;
    }
  }

  /** Placement shows nothing exactly when no queued toast fits into the
      slots free at the start. */
  lemma {:induction false} NothingShownIffNoRoom(occupied: set<int>, vis: seq<ToastInstance>, queue: seq<Toast>)
    requires occupied <= Range(0, SlotCount)
    ensures |Place(occupied, vis, queue).visible| == |vis| <==>
      forall k :: 0 <= k < |queue| ==> FindFreeSlotsIndex(occupied, queue[k].slotCount) == -1
    decreases |queue|
  {
    if |queue| > 0 {
      var t := queue[0];
      var j := FindFreeSlotsIndex(occupied, t.slotCount);
      if j == -1 {
        NothingShownIffNoRoom(occupied, vis, queue[1..]);
        assert forall k :: 0 < k < |queue| ==> queue[1..][k - 1] == queue[k];
      } else {
        var x := ToastInstance(t, j, t.slotCount);
        ShownOnScreen(occupied, x);
        assert |Place(occupied + Slots(x), vis + [x], queue[1..]).visible| >= |vis| + 1;
      }
    }
  }

  // ---------------------------------------------------------------------------
  // Operations
  // ---------------------------------------------------------------------------

  /** `update`: drop the toasts whose animation has finished (the set
      `finished`, which the animation clock decides) and free their slots;
      then, if something is queued and a slot is free, show every queued
      toast that fits. */
  function Update(m: ToastManager, finished: set<ToastInstance>): (r: ToastManager)
    requires Valid(m)
    ensures Valid(r)
    ensures |r.visible| >= |Unfinished(m.visible, finished)|
    ensures r.visible[..|Unfinished(m.visible, finished)|] == Unfinished(m.visible, finished)
    ensures |r.queued| <= |m.queued|
  {
    var kept := Unfinished(m.visible, finished);
    var occ := ClearFinished(m.occupied, m.visible, finished);
    ClearKeepsValid(m, finished);
    if |m.queued| > 0 && FreeSlotCount(occ) > 0 then
      var p := Place(occ, kept, m.queued);
      PlaceValid(occ, kept, m.queued);
      PlaceKeepsQueueShort(occ, kept, m.queued);
      PlaceExtends(occ, kept, m.queued);
      ToastManager(p.visible, p.occupied, p.stay)
    else
      ToastManager(kept, occ, m.queued)
  }

  /** Dropping the finished toasts and their slots keeps the invariant. */
  lemma ClearKeepsValid(m: ToastManager, finished: set<ToastInstance>)
    requires Valid(m)
    ensures ValidSlots(Unfinished(m.visible, finished), ClearFinished(m.occupied, m.visible, finished))
  {
    var kept := Unfinished(m.visible, finished);
    ClearFinishedExact(m.occupied, m.visible, finished);
    SplitCovered(m.visible, finished);
    assert forall v :: v in kept ==> v in m.visible;
  }

  /** An update shows queued toasts strictly in queue order: the newly shown
      ones and the ones still waiting interleave back into the old queue. */
  lemma {:induction false} UpdateFifo(m: ToastManager, finished: set<ToastInstance>)
    requires Valid(m)
    ensures var r := Update(m, finished);
      var kept := Unfinished(m.visible, finished);
      Interleaving(ToastsOf(r.visible[|kept|..]), r.queued, m.queued)
  {
    var kept := Unfinished(m.visible, finished);
    var occ := ClearFinished(m.occupied, m.visible, finished);
    ClearKeepsValid(m, finished);
    if |m.queued| > 0 && FreeSlotCount(occ) > 0 {
      PlaceFifo(occ, kept, m.queued);
    } else {
      assert kept[|kept|..] == [];
      NothingShown(m.queued);
    }
  }

  /** The guard of `update` (something queued, some slot free) only saves
      work: the update always ends as placing the whole queue would. */
  lemma {:induction false} UpdateIsPlace(m: ToastManager, finished: set<ToastInstance>)
    requires Valid(m)
    ensures var r := Update(m, finished);
      var occ := ClearFinished(m.occupied, m.visible, finished);
      occ <= Range(0, SlotCount) &&
      var p := Place(occ, Unfinished(m.visible, finished), m.queued);
      r == ToastManager(p.visible, p.occupied, p.stay)
  {
    var kept := Unfinished(m.visible, finished);
    var occ := ClearFinished(m.occupied, m.visible, finished);
    ClearKeepsValid(m, finished);
    if !(|m.queued| > 0 && FreeSlotCount(occ) > 0) {
      forall k | 0 <= k < |m.queued| ensures FindFreeSlotsIndex(occ, m.queued[k].slotCount) == -1 {
        if m.queued[k].slotCount >= 1 {
          NoRunWhenTooFull(occ, m.queued[k].slotCount);
        }
      }
      PlaceNoRoom(occ, kept, m.queued);
    }
  }

  /** An update decides every queued toast by the slots held at its turn:
      shown at the lowest free run of its size when there is one, kept in
      the queue otherwise. */
  lemma {:induction false} UpdateTurns(m: ToastManager, finished: set<ToastInstance>, k: int)
    requires Valid(m) && 0 <= k < |m.queued|
    ensures var r := Update(m, finished);
      var occ := ClearFinished(m.occupied, m.visible, finished);
      occ <= Range(0, SlotCount) &&
      TurnTaken(occ, m.queued, k, r.visible[|Unfinished(m.visible, finished)|..], r.queued)
  {
    UpdateIsPlace(m, finished);
    var occ := ClearFinished(m.occupied, m.visible, finished);
    PlaceTurns(occ, Unfinished(m.visible, finished), m.queued, k);
  }

  /** After an update no toast left in the queue fits into the free slots. */
  lemma {:induction false} UpdateLeavesNoRoom(m: ToastManager, finished: set<ToastInstance>)
    requires Valid(m)
    ensures var r := Update(m, finished);
      forall t :: t in r.queued ==> FindFreeSlotsIndex(r.occupied, t.slotCount) == -1
  {
    UpdateIsPlace(m, finished);
    var occ := ClearFinished(m.occupied, m.visible, finished);
    PlaceLeavesNoRoom(occ, Unfinished(m.visible, finished), m.queued);
  }

  /** `clear`. */
  function Clear(m: ToastManager): (r: ToastManager)
    ensures r.visible == [] && r.occupied == {} && r.queued == []
    ensures Valid(r)
  {
    ToastManager([], {}, [])
  }

  /** `addToast`: the toast joins the tail of the queue; nothing is shown yet. */
  function AddToast(m: ToastManager, t: Toast): (r: ToastManager)
    ensures r.queued == m.queued + [t]
    ensures r.visible == m.visible && r.occupied == m.occupied
    ensures Valid(m) ==> Valid(r)
  {
    m.(queued := m.queued + [t])
  }
}
