/** The sorting demonstration: a row of ten bars whose heights are drawn
    from 1..8, sorted in place by bubble, selection, insertion or quick
    sort (Lomuto partition). Every exchange of two bars suspends; a
    torn-down module stops the sort at its first suspension, before any
    bar has moved. Bar colours during a sort are not modelled. */
module Sorting {
  import opened Common
  import opened Resources
  import opened Graphics
  import opened Lifecycle
  import opened Rows

  const ROW_SIZE: nat := 10
  const BOX := "box"

  /** The box of a bar of height `h`. */
  function BarBox(h: nat): seq<string> {
    ["1", DecimalText(h), "1"]
  }

  class SortingModule {
    const base: ModuleBase
    const gfx: GraphicsEngine
    /** The algorithm, named by the second part of the module id. */
    const kind: string
    var bars: array<Item>

    ghost predicate Valid()
      reads this, base, gfx, gfx.resources
    {
      base.gfx == gfx && gfx.Valid()
    }

    /** A fresh module shows a fresh row of ten bars. */
    constructor (engine: GraphicsEngine, sortKind: string, draws: seq<real>)
      requires engine.Valid()
      requires |draws| == ROW_SIZE && forall i :: 0 <= i < |draws| ==> 0.0 <= draws[i] < 1.0
      modifies engine, engine.hoveredObject, engine.resources
      ensures Valid() && gfx == engine && kind == sortKind && fresh(base) && !base.cancelToken
      ensures bars.Length == ROW_SIZE
      ensures forall i :: 0 <= i < ROW_SIZE ==> bars[i].val == RandomBelow(draws[i], 8) + 1
      ensures gfx.objects == MeshList(bars[..])
    {
      base := new ModuleBase(engine);
      gfx := engine;
      kind := sortKind;
      bars := new Item[0];
      new;
      Generate(draws);
    }

    /** Clears the scene and builds a new row of ten bars, the `i`-th of
        height `floor(draws[i] * 8) + 1`, each labelled with its height. */
    method Generate(draws: seq<real>)
      requires Valid()
      requires |draws| == ROW_SIZE && forall i :: 0 <= i < |draws| ==> 0.0 <= draws[i] < 1.0
      modifies this, gfx, gfx.resources, gfx.hoveredObject
      ensures Valid() && fresh(bars) && bars.Length == ROW_SIZE
      ensures forall i :: 0 <= i < ROW_SIZE ==> bars[i].val == RandomBelow(draws[i], 8) + 1
      ensures forall i :: 0 <= i < ROW_SIZE ==> 1 <= bars[i].val <= 8
      ensures gfx.objects == MeshList(bars[..]) && gfx.arrows == [] && gfx.hoveredObject == null
    {
      gfx.Clear();
      var built: seq<Item> := [];
      var i := 0;
      while i < ROW_SIZE
        invariant Valid()
        invariant 0 <= i <= ROW_SIZE && |built| == i
        invariant forall k :: 0 <= k < i ==> built[k].val == RandomBelow(draws[k], 8) + 1
        invariant |gfx.objects| == i && forall k :: 0 <= k < i ==> gfx.objects[k] == built[k].mesh
        invariant gfx.arrows == [] && gfx.hoveredObject == null
      {
        var h := RandomBelow(draws[i], 8) + 1;
        var mesh := AddBar(h);
        built := built + [Item(h, mesh)];
        i := i + 1;
      }
      bars := new Item[ROW_SIZE](k requires 0 <= k < ROW_SIZE => built[k]);
      assert bars[..] == built;
    }

    /** One white bar of height `h`, registered with its height as its
        label. */
    method AddBar(h: nat) returns (mesh: Mesh)
      requires Valid()
      modifies gfx, gfx.resources
      ensures Valid() && fresh(mesh) && mesh.material.color == WHITE
      ensures gfx.objects == old(gfx.objects) + [mesh]
      ensures gfx.arrows == old(gfx.arrows) && gfx.hoveredObject == old(gfx.hoveredObject)
    {
      mesh := NewMesh(gfx.resources, BOX, BarBox(h), WHITE);
      gfx.AddObj(mesh, Some(Number(h)), None);
    }

    /** Sorts with the algorithm the module was made for; an algorithm it
        does not know leaves the row as it is. A finished run reports the
        row sorted. */
    method Run() returns (status: Status)
      modifies bars
      ensures var known := kind in {"bubble", "selection", "insertion", "quick"};
              status == (if known && base.cancelToken && bars.Length > 1 then Cancelled else Done)
              && (status == Cancelled || !known ==> bars[..] == old(bars[..]))
              && (status == Done && known ==>
                    Sorted(bars[..]) && multiset(bars[..]) == multiset(old(bars[..])))
    {
      status := Done;
      if kind == "bubble" {
        status := BubbleSort();
      } else if kind == "selection" {
        status := SelectionSort();
      } else if kind == "insertion" {
        status := InsertionSort();
      } else if kind == "quick" {
        status := QuickSort(0, bars.Length - 1);
        if status == Done {
          QuickSortedPermutes(old(bars[..]), 0, bars.Length - 1);
          QuickSortedSorts(old(bars[..]), 0, bars.Length - 1);
          PermutedWithinWhole(bars[..], old(bars[..]));
        }
      }
    }

    /** Exchanges the bars at `i` and `j`, then suspends; the suspension
        resumes, as the sort's first one did. */
    method Swap(i: int, j: int)
      requires 0 <= i < bars.Length && 0 <= j < bars.Length && !base.cancelToken
      modifies bars
      ensures bars[..] == old(bars[..])[i := old(bars[..])[j]][j := old(bars[..])[i]]
    {
      bars[i], bars[j] := bars[j], bars[i];
      var resumed := base.Sleep();
    }

    // ---------------------------------------------------------------
    // Bubble sort
    // ---------------------------------------------------------------

    /** Bubble sort: pass `i` carries the largest of the first `n - i`
        bars to index `n - 1 - i`. */
    method BubbleSort() returns (status: Status)
      modifies bars
      ensures status == (if base.cancelToken && bars.Length > 1 then Cancelled else Done)
      ensures status == Cancelled ==> bars[..] == old(bars[..])
      ensures status == Done ==> Sorted(bars[..]) && multiset(bars[..]) == multiset(old(bars[..]))
    {
      var n := bars.Length;
      var i := 0;
      while i < n
        invariant 0 <= i <= n
        invariant multiset(bars[..]) == multiset(old(bars[..]))
        invariant SortedSuffix(bars[..], n - i)
        invariant i == 0 ==> bars[..] == old(bars[..])
        invariant i > 0 && n > 1 ==> !base.cancelToken
      {
        var resumed := BubblePass(n - i);
        if !resumed {
          return Cancelled;
        }
        i := i + 1;
      }
      return if base.cancelToken && n > 1 then Cancelled else Done;
    }

    /** One pass over the first `m` bars: each neighbouring pair out of
        order is exchanged, so that the largest of them ends at `m - 1`. */
    method BubblePass(m: int) returns (resumed: bool)
      requires 1 <= m <= bars.Length && SortedSuffix(bars[..], m)
      modifies bars
      ensures resumed <==> !(base.cancelToken && m > 1)
      ensures !resumed ==> bars[..] == old(bars[..])
      ensures multiset(bars[..]) == multiset(old(bars[..]))
      ensures SortedSuffix(bars[..], m)
      ensures resumed ==> forall k :: 0 <= k < m ==> bars[k].val <= bars[m - 1].val
    {
      var j := 0;
      while j < m - 1
        invariant 0 <= j <= m - 1
        invariant multiset(bars[..]) == multiset(old(bars[..]))
        invariant BubbledTo(bars[..], j, m)
        invariant j == 0 ==> bars[..] == old(bars[..])
        invariant j > 0 ==> !base.cancelToken
      {
        var ok := base.Sleep();
        if !ok {
          return false;
        }
        ghost var before := bars[..];
        if bars[j].val > bars[j + 1].val {
          Swap(j, j + 1);
        }
        BubbleStepKeeps(before, bars[..], j, m);
        j := j + 1;
      }
      return true;
    }

    // ---------------------------------------------------------------
    // Selection sort
    // ---------------------------------------------------------------

    /** Selection sort: step `i` brings the first smallest of the bars
        from `i` on to index `i`. */
    method SelectionSort() returns (status: Status)
      modifies bars
      ensures status == (if base.cancelToken && bars.Length > 1 then Cancelled else Done)
      ensures status == Cancelled ==> bars[..] == old(bars[..])
      ensures status == Done ==> Sorted(bars[..]) && multiset(bars[..]) == multiset(old(bars[..]))
    {
      var n := bars.Length;
      var i := 0;
      while i < n
        invariant 0 <= i <= n
        invariant multiset(bars[..]) == multiset(old(bars[..]))
        invariant SortedPrefix(bars[..], i)
        invariant i == 0 ==> bars[..] == old(bars[..])
        invariant i > 0 && n > 1 ==> !base.cancelToken
      {
        var minIdx, resumed := SelectMin(i);
        if !resumed {
          return Cancelled;
        }
        ghost var before := bars[..];
        if minIdx != i {
          Swap(i, minIdx);
        }
        SelectStepKeeps(before, bars[..], i, minIdx);
        i := i + 1;
      }
      return if base.cancelToken && n > 1 then Cancelled else Done;
    }

    /** The index of the first smallest bar from `i` on; every bar after
        `i` is looked at with a suspension. */
    method SelectMin(i: int) returns (minIdx: int, resumed: bool)
      requires 0 <= i < bars.Length
      ensures resumed <==> !(base.cancelToken && i + 1 < bars.Length)
      ensures resumed ==> i <= minIdx < bars.Length
      ensures resumed ==> forall k :: i <= k < bars.Length ==> bars[minIdx].val <= bars[k].val
      ensures resumed ==> forall k :: i <= k < minIdx ==> bars[k].val > bars[minIdx].val
      ensures resumed && minIdx != i ==> !base.cancelToken
    {
      minIdx := i;
      var j := i + 1;
      while j < bars.Length
        invariant i + 1 <= j <= bars.Length && i <= minIdx < j
        invariant forall k :: i <= k < j ==> bars[minIdx].val <= bars[k].val
        invariant forall k :: i <= k < minIdx ==> bars[k].val > bars[minIdx].val
        invariant j > i + 1 ==> !base.cancelToken
      {
        var ok := base.Sleep();
        if !ok {
          return minIdx, false;
        }
        if bars[j].val < bars[minIdx].val {
          minIdx := j;
        }
        j := j + 1;
      }
      return minIdx, true;
    }

    // ---------------------------------------------------------------
    // Insertion sort
    // ---------------------------------------------------------------

    /** Insertion sort: step `i` takes the bar at `i` out, suspends, and
        puts it back after the last bar before it that is not above it. */
    method InsertionSort() returns (status: Status)
      modifies bars
      ensures status == (if base.cancelToken && bars.Length > 1 then Cancelled else Done)
      ensures status == Cancelled ==> bars[..] == old(bars[..])
      ensures status == Done ==> Sorted(bars[..]) && multiset(bars[..]) == multiset(old(bars[..]))
    {
      var n := bars.Length;
      var i := 1;
      while i < n
        invariant 1 <= i <= if n == 0 then 1 else n
        invariant multiset(bars[..]) == multiset(old(bars[..]))
        invariant SortedRange(bars[..], 0, i)
        invariant i == 1 ==> bars[..] == old(bars[..])
        invariant i > 1 ==> !base.cancelToken
      {
        var ok := base.Sleep();
        if !ok {
          return Cancelled;
        }
        ghost var before := bars[..];
        var hole := InsertKey(i);
        InsertedSorted(before, i, hole);
        InsertedPermutes(before, i, hole);
        i := i + 1;
      }
      return if base.cancelToken && n > 1 then Cancelled else Done;
    }

    /** Shifts every bar before `i` that is above the key (the bar at `i`)
        one place up, from the nearest down, and puts the key in the hole
        left: right after the first bar, counting down, that is not above
        it, so that equal bars keep their order. */
    method InsertKey(i: int) returns (hole: int)
      requires 0 < i < bars.Length && !base.cancelToken
      modifies bars
      ensures 0 <= hole <= i
      ensures bars[..] == Inserted(old(bars[..]), i, hole)
      ensures forall k :: hole <= k < i ==> old(bars[k]).val > old(bars[i]).val
      ensures hole > 0 ==> old(bars[hole - 1]).val <= old(bars[i]).val
    {
      var a := bars;
      ghost var s := a[..];
      var key := a[i];
      var j := i - 1;
      while j >= 0 && a[j].val > key.val
        invariant -1 <= j < i
        invariant forall k :: 0 <= k < a.Length && (k <= j + 1 || i < k) ==> a[k] == s[k]
        invariant forall k :: j + 1 < k <= i ==> a[k] == s[k - 1]
        invariant forall k :: j < k < i ==> s[k].val > key.val
      {
        var resumed := base.Sleep();
        a[j + 1] := a[j];
        j := j - 1;
      }
      a[j + 1] := key;
      hole := j + 1;
      InsertedAt(s, i, hole);
      assert a[..] == Inserted(s, i, hole);
    }

    // ---------------------------------------------------------------
    // Quick sort
    // ---------------------------------------------------------------

    /** Quick sort of the bars at `low..high`: partition, then sort each
        side of the pivot. */
    method QuickSort(low: int, high: int) returns (status: Status)
      requires 0 <= low <= high + 1 <= bars.Length
      modifies bars
      decreases high - low
      ensures status == (if base.cancelToken && low < high then Cancelled else Done)
      ensures status == Cancelled ==> bars[..] == old(bars[..])
      ensures status == Done ==> bars[..] == QuickSorted(old(bars[..]), low, high)
    {
      if low >= high {
        return Done;
      }
      var pi, resumed := Partition(low, high);
      if !resumed {
        return Cancelled;
      }
      var left := QuickSort(low, pi - 1);
      var right := QuickSort(pi + 1, high);
      return Done;
    }

    /** Lomuto partition of `low..high` around the bar at `high`: the scan
        gathers the bars below the pivot at the front, then the pivot is
        exchanged to right after them. */
    method Partition(low: int, high: int) returns (pi: int, resumed: bool)
      requires 0 <= low < high < bars.Length
      modifies bars
      ensures resumed <==> !base.cancelToken
      ensures !resumed ==> bars[..] == old(bars[..])
      ensures resumed ==> bars[..] == Partitioned(old(bars[..]), low, high) && pi == PivotIndex(old(bars[..]), low, high)
    {
      var i;
      i, resumed := Gather(low, high);
      if !resumed {
        return 0, false;
      }
      Swap(i + 1, high);
      return i + 1, true;
    }

    /** The scan of a partition: each bar of `low..high-1` is looked at
        with a suspension, and one below the pivot (the bar at `high`) is
        exchanged to the end of the lower side. */
    method Gather(low: int, high: int) returns (i: int, resumed: bool)
      requires 0 <= low < high < bars.Length
      modifies bars
      ensures resumed <==> !base.cancelToken
      ensures !resumed ==> bars[..] == old(bars[..])
      ensures resumed ==> bars[..] == ScanRow(old(bars[..]), high, low - 1, low) && i == ScanEnd(old(bars[..]), high, low - 1, low)
    {
      var pivot := bars[high];
      i := low - 1;
      var j := low;
      while j < high
        invariant low - 1 <= i < j <= high
        invariant bars[high] == pivot
        invariant ScanRow(bars[..], high, i, j) == ScanRow(old(bars[..]), high, low - 1, low)
        invariant ScanEnd(bars[..], high, i, j) == ScanEnd(old(bars[..]), high, low - 1, low)
        invariant j == low ==> bars[..] == old(bars[..])
        invariant j > low ==> !base.cancelToken
      {
        var ok := base.Sleep();
        if !ok {
          return i, false;
        }
        if bars[j].val < pivot.val {
          i := i + 1;
          Swap(i, j);
        }
        j := j + 1;
      }
      return i, true;
    }
  }

  /** One comparison of a bubble pass: exchanging the neighbours at `j`
      and `j + 1` when out of order keeps the finished suffix and carries
      the largest bar so far to `j + 1`. */
  lemma BubbleStepKeeps(s: seq<Item>, r: seq<Item>, j: int, m: int)
    requires 0 <= j < m - 1 && m <= |s| && BubbledTo(s, j, m)
    requires r == if s[j].val > s[j + 1].val then s[j := s[j + 1]][j + 1 := s[j]] else s
    ensures multiset(r) == multiset(s) && BubbledTo(r, j + 1, m)
  {
  }

  /** One step of selection sort: bringing the smallest bar from `i` on
      to `i` extends the finished prefix by one. */
  lemma SelectStepKeeps(s: seq<Item>, r: seq<Item>, i: int, minIdx: int)
    requires 0 <= i <= minIdx < |s| && SortedPrefix(s, i)
    requires forall k :: i <= k < |s| ==> s[minIdx].val <= s[k].val
    requires r == if minIdx != i then s[i := s[minIdx]][minIdx := s[i]] else s
    ensures multiset(r) == multiset(s) && SortedPrefix(r, i + 1)
  {
  }

  /** The row `s` with the bar at `i` taken out and put back at `hole`. */
  ghost function Inserted(s: seq<Item>, i: int, hole: int): seq<Item>
    requires 0 <= hole <= i < |s|
  {
    s[..hole] + [s[i]] + s[hole..i] + s[i + 1..]
  }

  /** Where each bar of `Inserted(s, i, hole)` comes from. */
  lemma InsertedAt(s: seq<Item>, i: int, hole: int)
    requires 0 <= hole <= i < |s|
    ensures var r := Inserted(s, i, hole);
            |r| == |s| && r[hole] == s[i]
            && (forall k :: 0 <= k < |s| && (k < hole || i < k) ==> r[k] == s[k])
            && (forall k :: hole < k <= i ==> r[k] == s[k - 1])
  {
  }

  /** Taking a bar out and putting it back elsewhere keeps every bar. */
  lemma InsertedPermutes(s: seq<Item>, i: int, hole: int)
    requires 0 <= hole <= i < |s|
    ensures multiset(Inserted(s, i, hole)) == multiset(s)
  {
    assert s == s[..hole] + s[hole..i] + [s[i]] + s[i + 1..];
  }

  /** Putting the key at the hole keeps the first `i + 1` bars sorted. */
  lemma InsertedSorted(s: seq<Item>, i: int, hole: int)
    requires 0 <= hole <= i < |s| && SortedRange(s, 0, i)
    requires forall k :: hole <= k < i ==> s[k].val > s[i].val
    requires hole > 0 ==> s[hole - 1].val <= s[i].val
    ensures SortedRange(Inserted(s, i, hole), 0, i + 1)
  {
    InsertedAt(s, i, hole);
  }

  /** The rest of a partition scan, on values: from comparison `j` on,
      with the lower side ending at `i`, the row it leaves. */
  ghost function ScanRow(s: seq<Item>, high: int, i: int, j: int): (r: seq<Item>)
    requires -1 <= i < j <= high < |s|
    ensures |r| == |s|
    decreases high - j
  {
    if j == high then s
    else if s[j].val < s[high].val then ScanRow(s[i + 1 := s[j]][j := s[i + 1]], high, i + 1, j + 1)
    else ScanRow(s, high, i, j + 1)
  }

  /** Where the lower side ends once the rest of the scan is done. */
  ghost function ScanEnd(s: seq<Item>, high: int, i: int, j: int): (e: int)
    requires -1 <= i < j <= high < |s|
    ensures i <= e < high
    decreases high - j
  {
    if j == high then i
    else if s[j].val < s[high].val then ScanEnd(s[i + 1 := s[j]][j := s[i + 1]], high, i + 1, j + 1)
    else ScanEnd(s, high, i, j + 1)
  }

  /** Lomuto partition of `low..high` on values: the pivot's new index,
      right after the lower side the scan gathered. */
  ghost function PivotIndex(s: seq<Item>, low: int, high: int): (p: int)
    requires 0 <= low < high < |s|
    ensures low <= p <= high
  {
    ScanEnd(s, high, low - 1, low) + 1
  }

  /** Lomuto partition of `low..high` on values: the row after the scan
      and the final exchange of the pivot at `high` with the bar at the
      pivot's new index. */
  ghost function Partitioned(s: seq<Item>, low: int, high: int): (r: seq<Item>)
    requires 0 <= low < high < |s|
    ensures |r| == |s|
  {
    var t := ScanRow(s, high, low - 1, low);
    var p := PivotIndex(s, low, high);
    t[p := t[high]][high := t[p]]
  }

  /** Quick sort of `low..high` on values. */
  ghost function QuickSorted(s: seq<Item>, low: int, high: int): (r: seq<Item>)
    requires 0 <= low <= high + 1 <= |s|
    ensures |r| == |s|
    decreases high - low
  {
    if low >= high then s
    else
      var pi := PivotIndex(s, low, high);
      QuickSorted(QuickSorted(Partitioned(s, low, high), low, pi - 1), pi + 1, high)
  }

  /** Lomuto's invariant: the bars at `lo..i` are below the pivot value,
      those at `i+1..j-1` are not. */
  ghost predicate Split(s: seq<Item>, lo: int, i: int, j: int, pivot: int) {
    (forall k :: lo <= k <= i && 0 <= k < |s| ==> s[k].val < pivot)
    && (forall k :: i < k < j && 0 <= k < |s| ==> s[k].val >= pivot)
  }

  /** A bar below the pivot value is exchanged into the lower side. */
  lemma SplitSwap(s: seq<Item>, lo: int, i: int, j: int, pivot: int)
    requires 0 <= lo && lo - 1 <= i < j < |s| && Split(s, lo, i, j, pivot) && s[j].val < pivot
    ensures Split(s[i + 1 := s[j]][j := s[i + 1]], lo, i + 1, j + 1, pivot)
  {
  }

  /** A bar not below the pivot value joins the upper side where it is. */
  lemma SplitKeep(s: seq<Item>, lo: int, i: int, j: int, pivot: int)
    requires 0 <= lo && lo - 1 <= i < j < |s| && Split(s, lo, i, j, pivot) && s[j].val >= pivot
    ensures Split(s, lo, i, j + 1, pivot)
  {
  }

  /** The last exchange of the partition puts the pivot between the two
      sides. */
  lemma PartitionFinish(s: seq<Item>, r: seq<Item>, lo: int, hi: int, i: int)
    requires 0 <= lo && lo - 1 <= i < hi < |s| && Split(s, lo, i, hi, s[hi].val)
    requires r == s[i + 1 := s[hi]][hi := s[i + 1]]
    ensures r[i + 1] == s[hi] && PivotBetween(r, lo, i + 1, hi)
  {
  }

  /** The rest of a scan keeps Lomuto's invariant, with pivot value `p`,
      up to the pivot, and leaves the pivot where it is. */
  lemma {:induction false} ScanSplits(s: seq<Item>, lo: int, high: int, i: int, j: int, p: int)
    requires 0 <= lo && lo - 1 <= i < j <= high < |s| && s[high].val == p && Split(s, lo, i, j, p)
    ensures Split(ScanRow(s, high, i, j), lo, ScanEnd(s, high, i, j), high, p)
    ensures ScanRow(s, high, i, j)[high] == s[high]
    decreases high - j
  {
    if j < high {
      if s[j].val < p {
        var t := s[i + 1 := s[j]][j := s[i + 1]];
        assert ScanRow(s, high, i, j) == ScanRow(t, high, i + 1, j + 1);
        assert ScanEnd(s, high, i, j) == ScanEnd(t, high, i + 1, j + 1);
        SplitSwap(s, lo, i, j, p);
        ScanSplits(t, lo, high, i + 1, j + 1, p);
      } else {
        assert ScanRow(s, high, i, j) == ScanRow(s, high, i, j + 1);
        assert ScanEnd(s, high, i, j) == ScanEnd(s, high, i, j + 1);
        SplitKeep(s, lo, i, j, p);
        ScanSplits(s, lo, high, i, j + 1, p);
      }
    }
  }

  /** The rest of a scan only rearranges `lo..high-1`, so the pivot at
      `high` stays where it is. */
  lemma {:induction false} ScanPermutes(s: seq<Item>, lo: int, high: int, i: int, j: int)
    requires 0 <= lo && lo - 1 <= i < j <= high < |s|
    ensures PermutedWithin(ScanRow(s, high, i, j), s, lo, high)
    decreases high - j
  {
    if j == high {
      PermutedWithinSame(s, lo, high);
    } else if s[j].val < s[high].val {
      var t := s[i + 1 := s[j]][j := s[i + 1]];
      var r := ScanRow(t, high, i + 1, j + 1);
      assert ScanRow(s, high, i, j) == r;
      SwapPermutesWithin(s, i + 1, j, lo, high);
      ScanPermutes(t, lo, high, i + 1, j + 1);
      PermutedWithinTrans(r, t, s, lo, high);
    } else {
      assert ScanRow(s, high, i, j) == ScanRow(s, high, i, j + 1);
      ScanPermutes(s, lo, high, i, j + 1);
    }
  }

  /** A partition only rearranges `low..high`. */
  lemma PartitionedPermutes(s: seq<Item>, low: int, high: int)
    requires 0 <= low < high < |s|
    ensures PermutedWithin(Partitioned(s, low, high), s, low, high + 1)
  {
    var t := ScanRow(s, high, low - 1, low);
    ScanPermutes(s, low, high, low - 1, low);
    SwapPermutesWithin(t, PivotIndex(s, low, high), high, low, high + 1);
    PermutedWithinWiden(t, s, low, high, low, high + 1);
    PermutedWithinTrans(Partitioned(s, low, high), t, s, low, high + 1);
  }

  /** A partition puts the pivot (the bar that was at `high`) at its new
      index, after the bars below it and before those not below it. */
  lemma PartitionedOrders(s: seq<Item>, low: int, high: int)
    requires 0 <= low < high < |s|
    ensures Partitioned(s, low, high)[PivotIndex(s, low, high)] == s[high]
    ensures PivotBetween(Partitioned(s, low, high), low, PivotIndex(s, low, high), high)
  {
    ScanSplits(s, low, high, low - 1, low, s[high].val);
    PartitionFinish(ScanRow(s, high, low - 1, low), Partitioned(s, low, high), low, high, ScanEnd(s, high, low - 1, low));
  }

  /** Quick sort only rearranges `low..high`. */
  lemma {:induction false} QuickSortedPermutes(s: seq<Item>, low: int, high: int)
    requires 0 <= low <= high + 1 <= |s|
    ensures PermutedWithin(QuickSorted(s, low, high), s, low, high + 1)
    decreases high - low
  {
    if low >= high {
      assert PermutedWithin(s, s, low, high + 1);
    } else {
      var t := Partitioned(s, low, high);
      var pi := PivotIndex(s, low, high);
      var u := QuickSorted(t, low, pi - 1);
      var v := QuickSorted(u, pi + 1, high);
      assert QuickSorted(s, low, high) == v;
      PartitionedPermutes(s, low, high);
      QuickSortedPermutes(t, low, pi - 1);
      QuickSortedPermutes(u, pi + 1, high);
      JoinPermuted(s, t, u, v, low, pi, high);
    }
  }

  /** Quick sort leaves `low..high` sorted. */
  lemma {:induction false} QuickSortedSorts(s: seq<Item>, low: int, high: int)
    requires 0 <= low <= high + 1 <= |s|
    ensures SortedRange(QuickSorted(s, low, high), low, high + 1)
    decreases high - low
  {
    if low < high {
      var t := Partitioned(s, low, high);
      var pi := PivotIndex(s, low, high);
      var u := QuickSorted(t, low, pi - 1);
      var v := QuickSorted(u, pi + 1, high);
      assert QuickSorted(s, low, high) == v;
      PartitionedOrders(s, low, high);
      QuickSortedPermutes(t, low, pi - 1);
      QuickSortedPermutes(u, pi + 1, high);
      QuickSortedSorts(t, low, pi - 1);
      QuickSortedSorts(u, pi + 1, high);
      JoinSorted(t, u, v, low, pi, high);
    }
  }
}
