/** The Big-O module: demonstrations of logarithmic, linear and quadratic
    time, each drawing a row of labelled boxes and stepping a loop over it
    with a pause per step. Only the loops' decisions are modelled: which
    indices a binary search probes and what it finds, where a linear search
    stops, and which pairs a nested loop visits. The highlight colours the
    loops paint and the log text are not. */
module BigO {
  import opened Common
  import opened Graphics
  import opened Lifecycle

  const BOX := "box"
  /** The box size of the binary-search row. */
  const SMALL_BOX: seq<string> := ["0.7", "0.7", "0.7"]
  /** The box size of the linear and quadratic rows. */
  const WIDE_BOX: seq<string> := ["1.2", "1", "1.2"]

  /** The binary-search demo: 31 values (a perfect halving, 2^5 - 1) and
      the value looked for. */
  const LOGN_SIZE: nat := 31
  const LOGN_TARGET: int := 25
  /** Box counts of the linear and quadratic demos. */
  const ON_SIZE: nat := 8
  const ON2_SIZE: nat := 5

  /** 1, 2, ..., n. */
  function Numbers(n: nat): (s: seq<int>)
    ensures |s| == n && forall i :: 0 <= i < n ==> s[i] == i + 1
  {
    seq(n, i => i + 1)
  }

  ghost predicate Sorted(s: seq<int>)
  {
    forall i, j :: 0 <= i <= j < |s| ==> s[i] <= s[j]
  }

  // ---------------------------------------------------------------------
  // Binary search

  /** The indices a binary search over `s[lo..hi]` (inclusive bounds)
      inspects, in order: the midpoint `floor((lo + hi) / 2)` of the
      current range, then those of the half the comparison keeps, until a
      match or an empty range. */
  function Probes(s: seq<int>, t: int, lo: int, hi: int): seq<int>
    requires 0 <= lo <= hi + 1 <= |s|
    decreases hi - lo + 1
  {
    if lo > hi then []
    else
      var mid := (lo + hi) / 2;
      if s[mid] == t then [mid]
      else if s[mid] < t then [mid] + Probes(s, t, mid + 1, hi)
      else [mid] + Probes(s, t, lo, mid - 1)
  }

  /** Where the same search finds `t`, if it does. */
  function Outcome(s: seq<int>, t: int, lo: int, hi: int): Option<nat>
    requires 0 <= lo <= hi + 1 <= |s|
    decreases hi - lo + 1
  {
    if lo > hi then None
    else
      var mid := (lo + hi) / 2;
      if s[mid] == t then Some(mid)
      else if s[mid] < t then Outcome(s, t, mid + 1, hi)
      else Outcome(s, t, lo, mid - 1)
  }

  /** One comparison that misses keeps the half of the range on the
      target's side, and the search goes on there. */
  lemma ProbesNarrow(s: seq<int>, t: int, lo: int, hi: int, mid: int, lo': int, hi': int)
    requires 0 <= lo <= hi < |s| && mid == (lo + hi) / 2 && s[mid] != t
    requires if s[mid] < t then lo' == mid + 1 && hi' == hi else lo' == lo && hi' == mid - 1
    ensures 0 <= lo' <= hi' + 1 <= |s|
    ensures Probes(s, t, lo, hi) == [mid] + Probes(s, t, lo', hi')
    ensures Outcome(s, t, lo, hi) == Outcome(s, t, lo', hi')
  {
  }

  /** A comparison that matches ends the search there. */
  lemma ProbesHit(s: seq<int>, t: int, lo: int, hi: int, mid: int)
    requires 0 <= lo <= hi < |s| && mid == (lo + hi) / 2 && s[mid] == t
    ensures Probes(s, t, lo, hi) == [mid] && Outcome(s, t, lo, hi) == Some(mid)
  {
  }

  /** An empty range is not searched and holds no match. */
  lemma ProbesEmpty(s: seq<int>, t: int, lo: int, hi: int)
    requires 0 <= lo == hi + 1 <= |s|
    ensures Probes(s, t, lo, hi) == [] && Outcome(s, t, lo, hi) == None
  {
  }

  /** Every probe lies in the range searched: `lo <= mid <= hi`. */
  lemma {:induction false} ProbesWithin(s: seq<int>, t: int, lo: int, hi: int)
    requires 0 <= lo <= hi + 1 <= |s|
    ensures forall k :: 0 <= k < |Probes(s, t, lo, hi)| ==> lo <= Probes(s, t, lo, hi)[k] <= hi
    decreases hi - lo + 1
  {
    if lo <= hi {
      var mid := (lo + hi) / 2;
      if s[mid] < t {
        ProbesWithin(s, t, mid + 1, hi);
      } else if s[mid] > t {
        ProbesWithin(s, t, lo, mid - 1);
      }
    }
  }

  function Pow2(k: nat): (p: nat)
    ensures p >= 1
  {
    if k == 0 then 1 else 2 * Pow2(k - 1)
  }

  /** Either half left after a probe is less than half the range. */
  lemma HalvesShrink(lo: int, hi: int, p: int)
    requires lo <= hi && hi - lo + 1 < 2 * p
    ensures hi - ((lo + hi) / 2 + 1) + 1 < p && (lo + hi) / 2 - 1 - lo + 1 < p
  {
  }

  /** Each probe at least halves the range, so a range of fewer than 2^k
      values takes at most k probes. */
  lemma {:induction false} ProbesLogarithmic(s: seq<int>, t: int, lo: int, hi: int, k: nat)
    requires 0 <= lo <= hi + 1 <= |s|
    requires hi - lo + 1 < Pow2(k)
    ensures |Probes(s, t, lo, hi)| <= k
    decreases hi - lo + 1
  {
    if lo <= hi {
      var mid := (lo + hi) / 2;
      assert Pow2(k) == 2 * Pow2(k - 1);
      HalvesShrink(lo, hi, Pow2(k - 1));
      if s[mid] < t {
        ProbesLogarithmic(s, t, mid + 1, hi, k - 1);
      } else if s[mid] > t {
        ProbesLogarithmic(s, t, lo, mid - 1, k - 1);
      }
    }
  }

  /** What a search finds is a match inside the range. */
  lemma {:induction false} OutcomeFound(s: seq<int>, t: int, lo: int, hi: int)
    requires 0 <= lo <= hi + 1 <= |s|
    ensures var r := Outcome(s, t, lo, hi);
            r.Some? ==> lo <= r.value <= hi && s[r.value] == t
    decreases hi - lo + 1
  {
    if lo <= hi {
      var mid := (lo + hi) / 2;
      if s[mid] < t {
        OutcomeFound(s, t, mid + 1, hi);
      } else if s[mid] > t {
        OutcomeFound(s, t, lo, mid - 1);
      }
    }
  }

  /** A search stops at a match, and a match is the last index probed. */
  lemma {:induction false} OutcomeLastProbe(s: seq<int>, t: int, lo: int, hi: int)
    requires 0 <= lo <= hi + 1 <= |s|
    ensures var p := Probes(s, t, lo, hi);
            Outcome(s, t, lo, hi).Some? <==> p != [] && 0 <= p[|p| - 1] < |s| && s[p[|p| - 1]] == t
    ensures var p := Probes(s, t, lo, hi);
            Outcome(s, t, lo, hi).Some? ==> Outcome(s, t, lo, hi).value == p[|p| - 1]
    decreases hi - lo + 1
  {
    if lo <= hi {
      var mid := (lo + hi) / 2;
      if s[mid] == t {
        ProbesHit(s, t, lo, hi, mid);
      } else {
        var lo', hi' := if s[mid] < t then mid + 1 else lo, if s[mid] < t then hi else mid - 1;
        ProbesNarrow(s, t, lo, hi, mid, lo', hi');
        OutcomeLastProbe(s, t, lo', hi');
        LastOfAppend([mid], Probes(s, t, lo', hi'));
      }
    } else {
      ProbesEmpty(s, t, lo, hi);
    }
  }

  /** On sorted values a search that finds nothing has passed over no
      match. */
  lemma {:induction false} OutcomeMisses(s: seq<int>, t: int, lo: int, hi: int)
    requires 0 <= lo <= hi + 1 <= |s| && Sorted(s)
    ensures Outcome(s, t, lo, hi).None? ==> forall i :: lo <= i <= hi ==> s[i] != t
    decreases hi - lo + 1
  {
    if lo <= hi {
      var mid := (lo + hi) / 2;
      if s[mid] < t {
        OutcomeMisses(s, t, mid + 1, hi);
        forall i | lo <= i <= mid
          ensures s[i] != t
        {
          assert s[i] <= s[mid];
        }
      } else if s[mid] > t {
        OutcomeMisses(s, t, lo, mid - 1);
        forall i | mid <= i <= hi
          ensures s[i] != t
        {
          assert s[mid] <= s[i];
        }
      }
    }
  }

  /** On sorted values the search misses only what is not there. */
  lemma OutcomeComplete(s: seq<int>, t: int, lo: int, hi: int)
    requires 0 <= lo <= hi + 1 <= |s| && Sorted(s)
    ensures Outcome(s, t, lo, hi).None? <==> forall i :: lo <= i <= hi ==> s[i] != t
  {
    OutcomeFound(s, t, lo, hi);
    OutcomeMisses(s, t, lo, hi);
  }

  /** The demo's own search: over 1..31 looking for 25 it probes indices
      15, 23, 27, 25 and 24, and finds 25 at index 24. */
  lemma DemoSearch()
    ensures Probes(Numbers(LOGN_SIZE), LOGN_TARGET, 0, LOGN_SIZE - 1) == [15, 23, 27, 25, 24]
    ensures Outcome(Numbers(LOGN_SIZE), LOGN_TARGET, 0, LOGN_SIZE - 1) == Some(24)
  {
    var s := Numbers(LOGN_SIZE);
    assert Probes(s, 25, 24, 24) == [24] && Outcome(s, 25, 24, 24) == Some(24);
    assert Probes(s, 25, 24, 26) == [25, 24] && Outcome(s, 25, 24, 26) == Some(24);
    assert Probes(s, 25, 24, 30) == [27, 25, 24] && Outcome(s, 25, 24, 30) == Some(24);
    assert Probes(s, 25, 16, 30) == [23, 27, 25, 24] && Outcome(s, 25, 16, 30) == Some(24);
  }

  // ---------------------------------------------------------------------
  // Nested loop

  /** Row `i` of the pairs an `n`-by-`n` nested loop visits. */
  function Row(i: nat, n: nat): (r: seq<(nat, nat)>)
    ensures |r| == n
  {
    seq(n, j => (i, j))
  }

  /** The first `rows` rows, in row-major order. */
  function RowMajor(rows: nat, n: nat): seq<(nat, nat)>
  {
    if rows == 0 then [] else RowMajor(rows - 1, n) + Row(rows - 1, n)
  }

  lemma MulStep(a: nat, n: nat)
    ensures (a + 1) * n == a * n + n
  {
  }

  /** The first `rows` rows hold `rows * n` pairs. */
  lemma {:induction false} RowMajorLength(rows: nat, n: nat)
    ensures |RowMajor(rows, n)| == rows * n
  {
    if rows > 0 {
      RowMajorLength(rows - 1, n);
      MulStep(rows - 1, n);
    }
  }

  /** Pair `(i, j)` sits at position `i * n + j`: with the length above,
      every pair once, row by row. */
  lemma {:induction false} RowMajorAt(rows: nat, n: nat, i: nat, j: nat)
    requires i < rows && j < n
    ensures i * n + j < |RowMajor(rows, n)| && RowMajor(rows, n)[i * n + j] == (i, j)
    decreases rows
  {
    var prev := RowMajor(rows - 1, n);
    assert RowMajor(rows, n) == prev + Row(rows - 1, n);
    RowMajorLength(rows - 1, n);
    if i < rows - 1 {
      RowMajorAt(rows - 1, n, i, j);
    } else {
      assert i * n == |prev|;
    }
  }

  /** The labels of the first `|boxes|` boxes of a row: box `k` captioned
      with value `k`. */
  function RowLabels(boxes: seq<Mesh>, vals: seq<int>): seq<Label>
    requires |boxes| <= |vals|
    decreases |boxes|
  {
    if boxes == [] then []
    else RowLabels(boxes[..|boxes| - 1], vals) + [Label(boxes[|boxes| - 1], Number(vals[|boxes| - 1]))]
  }

  /** One more box adds its own caption after the others. */
  lemma RowLabelsSnoc(boxes: seq<Mesh>, mesh: Mesh, vals: seq<int>)
    requires |boxes| < |vals|
    ensures RowLabels(boxes + [mesh], vals) == RowLabels(boxes, vals) + [Label(mesh, Number(vals[|boxes|]))]
  {
    assert (boxes + [mesh])[..|boxes|] == boxes;
  }

  class BigOModule {
    const base: ModuleBase
    const gfx: GraphicsEngine

    ghost predicate Valid()
      reads this, base, gfx, gfx.resources
    {
      base.gfx == gfx && gfx.Valid()
    }

    /** A fresh module over an empty scene. */
    constructor (engine: GraphicsEngine)
      requires engine.Valid()
      modifies engine, engine.hoveredObject
      ensures Valid() && gfx == engine && fresh(base) && !base.cancelToken
      ensures gfx.objects == [] && gfx.labels == [] && gfx.arrows == []
    {
      base := new ModuleBase(engine);
      gfx := engine;
    }

    /** A row of base-coloured boxes, one per value, each labelled with its
        value. */
    method DrawRow(vals: seq<int>, size: seq<string>) returns (boxes: seq<Mesh>)
      requires Valid()
      modifies gfx, gfx.resources
      ensures Valid() && |boxes| == |vals|
      ensures forall k :: 0 <= k < |boxes| ==> fresh(boxes[k])
      ensures gfx.objects == old(gfx.objects) + boxes
      ensures gfx.labels == old(gfx.labels) + (if gfx.labelsLayer then RowLabels(boxes, vals) else [])
      ensures gfx.arrows == old(gfx.arrows) && gfx.hoveredObject == old(gfx.hoveredObject)
    {
      boxes := [];
      var added: seq<Label> := [];
      var i := 0;
      while i < |vals|
        invariant Valid() && 0 <= i <= |vals| && |boxes| == i
        invariant forall k :: 0 <= k < i ==> fresh(boxes[k])
        invariant gfx.objects == old(gfx.objects) + boxes
        invariant added == (if gfx.labelsLayer then RowLabels(boxes, vals) else [])
        invariant gfx.labels == old(gfx.labels) + added
        invariant gfx.arrows == old(gfx.arrows) && gfx.hoveredObject == old(gfx.hoveredObject)
      {
        var mesh := PlaceBox(vals[i], size);
        if gfx.labelsLayer {
          added := added + [Label(mesh, Number(vals[i]))];
        }
        RowLabelsSnoc(boxes, mesh, vals);
        boxes := boxes + [mesh];
        i := i + 1;
      }
    }

    /** One base-coloured box, labelled with its value. */
    method PlaceBox(val: int, size: seq<string>) returns (mesh: Mesh)
      requires Valid()
      modifies gfx, gfx.resources
      ensures Valid() && fresh(mesh)
      ensures gfx.objects == old(gfx.objects) + [mesh]
      ensures gfx.labels == old(gfx.labels) + (if gfx.labelsLayer then [Label(mesh, Number(val))] else [])
      ensures gfx.arrows == old(gfx.arrows) && gfx.hoveredObject == old(gfx.hoveredObject)
    {
      mesh := NewMesh(gfx.resources, BOX, size, BASE);
      gfx.AddObj(mesh, Some(Number(val)), None);
    }

    /** Binary search for `target` over `numbers`, pausing after each probe
        and after each comparison. It returns the index found, the indices
        probed, and whether the loop ended on an empty range, which is what
        the "not found" message reports. A torn-down module stops at the
        first pause, after the first probe, with nothing found or
        reported. */
    method BinarySearch(numbers: seq<int>, target: int) returns (found: Option<nat>, mids: seq<int>, notFound: bool)
      ensures base.cancelToken && |numbers| > 0 ==> found == None && mids == [(|numbers| - 1) / 2] && !notFound
      ensures !base.cancelToken || |numbers| == 0 ==>
                mids == Probes(numbers, target, 0, |numbers| - 1)
                && found == Outcome(numbers, target, 0, |numbers| - 1)
                && (found.Some? ==> found.value < |numbers| && numbers[found.value] == target)
                && (notFound <==> found.None?)
    {
      var low := 0;
      var high := |numbers| - 1;
      found := None;
      mids := [];
      while low <= high
        invariant 0 <= low <= high + 1 <= |numbers| && found == None
        invariant mids + Probes(numbers, target, low, high) == Probes(numbers, target, 0, |numbers| - 1)
        invariant Outcome(numbers, target, low, high) == Outcome(numbers, target, 0, |numbers| - 1)
        invariant base.cancelToken ==> mids == [] && low == 0 && high == |numbers| - 1
        decreases high - low + 1
      {
        var mid := (low + high) / 2;
        ghost var before := mids;
        mids := mids + [mid];
        var resumed := base.Sleep();
        if !resumed {
          return None, mids, false;
        }
        if numbers[mid] == target {
          ProbesHit(numbers, target, low, high, mid);
          found := Some(mid);
          break;
        }
        ghost var lo0 := low;
        ghost var hi0 := high;
        if numbers[mid] < target {
          low := mid + 1;
        } else {
          high := mid - 1;
        }
        ProbesNarrow(numbers, target, lo0, hi0, mid, low, high);
        AppendAssoc(before, [mid], Probes(numbers, target, low, high));
        resumed := base.Sleep();
      }
      notFound := low > high;
      if notFound {
        ProbesEmpty(numbers, target, low, high);
        assert mids + [] == mids;
      }
    }

    /** Linear search for `target`, pausing before each comparison and
        stopping at the first match: `found` says whether one exists and
        `at` is where the loop stopped. A torn-down module stops at the
        first pause, before any comparison. */
    method LinearSearch(values: seq<int>, target: int) returns (found: bool, at: nat)
      ensures base.cancelToken && |values| > 0 ==> !found && at == 0
      ensures !base.cancelToken || |values| == 0 ==>
                (found <==> target in values)
                && (found ==> at < |values| && values[at] == target && target !in values[..at])
                && (!found ==> at == |values|)
    {
      found := false;
      var i := 0;
      while i < |values|
        invariant 0 <= i <= |values| && target !in values[..i]
        invariant base.cancelToken ==> i == 0
      {
        var resumed := base.Sleep();
        if !resumed {
          return false, 0;
        }
        if values[i] == target {
          found := true;
          break;
        }
        assert values[..i + 1] == values[..i] + [values[i]];
        i := i + 1;
      }
      at := i;
      if !found {
        assert values[..i] == values;
      }
    }

    /** The nested loop of the quadratic demo: for each index `i` an outer
        pause, then for each index `j` an inner pause; the pairs visited
        are returned in order. A torn-down module stops at the first pause,
        having visited nothing. */
    method NestedVisits(n: nat) returns (visits: seq<(nat, nat)>)
      ensures base.cancelToken ==> visits == []
      ensures !base.cancelToken ==> visits == RowMajor(n, n)
    {
      visits := [];
      var i := 0;
      while i < n
        invariant 0 <= i <= n && visits == RowMajor(i, n)
        invariant base.cancelToken ==> i == 0
      {
        var resumed := base.Sleep();
        if !resumed {
          return [];
        }
        var j := 0;
        while j < n
          invariant 0 <= j <= n && visits == RowMajor(i, n) + seq(j, k => (i, k))
          invariant !base.cancelToken
        {
          resumed := base.Sleep();
          assert seq(j + 1, k => (i, k)) == seq(j, k => (i, k)) + [(i, j)];
          visits := visits + [(i, j)];
          j := j + 1;
        }
        i := i + 1;
      }
    }

    /** O(log n): clears the scene, pauses, draws 1..31, pauses, and
        searches for 25. A cancelled run stops at the first pause with an
        empty scene. */
    method ShowLogN() returns (status: Status, found: Option<nat>, mids: seq<int>, notFound: bool)
      requires Valid()
      modifies gfx, gfx.resources, gfx.hoveredObject
      ensures Valid() && status == (if base.cancelToken then Cancelled else Done)
      ensures status == Cancelled ==> gfx.objects == [] && found == None && mids == []
      ensures status == Done ==> |gfx.objects| == LOGN_SIZE && found == Some(24) && mids == [15, 23, 27, 25, 24] && !notFound
    {
      gfx.Clear();
      found, mids, notFound := None, [], false;
      var resumed := base.Sleep();
      if !resumed {
        return Cancelled, found, mids, notFound;
      }
      var numbers := Numbers(LOGN_SIZE);
      var boxes := DrawRow(numbers, SMALL_BOX);
      resumed := base.Sleep();
      found, mids, notFound := BinarySearch(numbers, LOGN_TARGET);
      DemoSearch();
      status := Done;
    }

    /** O(n): clears the scene, draws eight values `floor(r * 10)` from the
        draws given, looks for `floor(r * 9) + 1`, pauses, and searches. A
        cancelled run stops at that pause with the row drawn. */
    method ShowON(draws: seq<real>, targetDraw: real) returns (status: Status, values: seq<int>, target: int, found: bool, at: nat)
      requires Valid()
      requires |draws| == ON_SIZE && forall i :: 0 <= i < |draws| ==> 0.0 <= draws[i] < 1.0
      requires 0.0 <= targetDraw < 1.0
      modifies gfx, gfx.resources, gfx.hoveredObject
      ensures Valid() && status == (if base.cancelToken then Cancelled else Done)
      ensures |values| == ON_SIZE && forall i :: 0 <= i < ON_SIZE ==> values[i] == RandomBelow(draws[i], 10)
      ensures 1 <= target <= 9 && target == RandomBelow(targetDraw, 9) + 1
      ensures |gfx.objects| == ON_SIZE
      ensures status == Done ==> (found <==> target in values)
      ensures status == Done && found ==> at < |values| && values[at] == target && target !in values[..at]
    {
      gfx.Clear();
      target := RandomBelow(targetDraw, 9) + 1;
      values := seq(ON_SIZE, i requires 0 <= i < ON_SIZE => RandomBelow(draws[i], 10));
      var boxes := DrawRow(values, WIDE_BOX);
      found, at := false, 0;
      var resumed := base.Sleep();
      if !resumed {
        return Cancelled, values, target, found, at;
      }
      found, at := LinearSearch(values, target);
      status := Done;
    }

    /** O(n^2): clears the scene, draws five values `floor(r * 10)`,
        pauses, and runs the nested loop over every pair of indices. */
    method ShowON2(draws: seq<real>) returns (status: Status, values: seq<int>, visits: seq<(nat, nat)>)
      requires Valid()
      requires |draws| == ON2_SIZE && forall i :: 0 <= i < |draws| ==> 0.0 <= draws[i] < 1.0
      modifies gfx, gfx.resources, gfx.hoveredObject
      ensures Valid() && status == (if base.cancelToken then Cancelled else Done)
      ensures |values| == ON2_SIZE && forall i :: 0 <= i < ON2_SIZE ==> values[i] == RandomBelow(draws[i], 10)
      ensures |gfx.objects| == ON2_SIZE
      ensures status == Cancelled ==> visits == []
      ensures status == Done ==> visits == RowMajor(ON2_SIZE, ON2_SIZE) && |visits| == 25
    {
      gfx.Clear();
      values := seq(ON2_SIZE, i requires 0 <= i < ON2_SIZE => RandomBelow(draws[i], 10));
      var boxes := DrawRow(values, WIDE_BOX);
      visits := [];
      var resumed := base.Sleep();
      if !resumed {
        return Cancelled, values, visits;
      }
      visits := NestedVisits(ON2_SIZE);
      RowMajorLength(ON2_SIZE, ON2_SIZE);
      status := Done;
    }
  }
}
