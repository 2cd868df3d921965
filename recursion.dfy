/** The recursion demonstration: `factorial(n)` computed recursively, each
    call drawn as a frame pushed on a call stack before it recurses and
    popped after its result is known. Positions, the falling and fading
    animations and the log are not modelled. */
module Recursion {
  import opened Common
  import opened Resources
  import opened Graphics
  import opened Lifecycle

  const BOX := "box"
  const FRAME_BOX: seq<string> := ["3", "0.8", "3"]

  /** What a call returns: 1 at or below 1, otherwise `n` times the result
      for `n - 1`; never below 1. */
  function Factorial(n: int): (r: int)
    ensures r >= 1
    decreases if n <= 1 then 0 else n
  {
    if n <= 1 then 1 else n * Factorial(n - 1)
  }

  /** The product `lo * (lo + 1) * ... * hi`, empty (1) when `lo > hi`. */
  function Product(lo: int, hi: int): int
    decreases if lo > hi then 0 else hi - lo + 1
  {
    if lo > hi then 1 else lo * Product(lo + 1, hi)
  }

  /** Extending the range by its next number multiplies the product by it. */
  lemma {:induction false} ProductSnoc(lo: int, hi: int)
    requires lo <= hi + 1
    ensures Product(lo, hi + 1) == Product(lo, hi) * (hi + 1)
    decreases hi - lo + 1
  {
    if lo <= hi {
      ProductSnoc(lo + 1, hi);
      assert Product(lo, hi + 1) == lo * Product(lo + 1, hi + 1);
    }
  }

  /** The recursion computes `n!`, the product of 1 to `n`. */
  lemma {:induction false} FactorialIsProduct(n: int)
    ensures Factorial(n) == Product(1, n)
    decreases if n <= 1 then 0 else n
  {
    if n > 1 {
      FactorialIsProduct(n - 1);
      ProductSnoc(1, n - 1);
    }
  }

  /** The two buttons of the page: `factorial(3)` and `factorial(5)`. */
  lemma ButtonResults()
    ensures Factorial(3) == 6 && Factorial(5) == 120
  {
  }

  /** The larger of two numbers. */
  function Max(a: int, b: int): (m: int)
    ensures m >= a && m >= b && (m == a || m == b)
  {
    if a >= b then a else b
  }

  /** Unregisters each of `ms` in turn, as `removeObj` does: the first
      occurrence of each goes, when there is one. */
  function RemoveMeshes(objs: seq<Mesh>, ms: seq<Mesh>): seq<Mesh>
    decreases |ms|
  {
    if ms == [] then objs
    else
      var o := RemoveMeshes(objs, ms[..|ms| - 1]);
      RemoveAt(o, IndexOf(o, ms[|ms| - 1]))
  }

  /** The labels left when each of `ms` loses its first label in turn. */
  function RemoveLabels(labels: seq<Label>, ms: seq<Mesh>): seq<Label>
    decreases |ms|
  {
    if ms == [] then labels
    else
      var o := RemoveLabels(labels, ms[..|ms| - 1]);
      RemoveAt(o, LabelIndex(o, ms[|ms| - 1]))
  }

  /** Removing frames never touches a mesh that is not one of them, and
      never adds one. */
  lemma {:induction false} RemoveMeshesKeepsOthers(objs: seq<Mesh>, ms: seq<Mesh>, x: Mesh)
    ensures x !in ms ==> multiset(RemoveMeshes(objs, ms))[x] == multiset(objs)[x]
    ensures multiset(RemoveMeshes(objs, ms))[x] <= multiset(objs)[x]
    decreases |ms|
  {
    if ms != [] {
      var init, last := ms[..|ms| - 1], ms[|ms| - 1];
      assert ms == init + [last];
      RemoveMeshesKeepsOthers(objs, init, x);
      var o := RemoveMeshes(objs, init);
      var i := IndexOf(o, last);
      assert RemoveMeshes(objs, ms) == RemoveAt(o, i);
      if i >= 0 {
        RemoveAtKeepsOthers(o, i);
        var before: multiset<Mesh>, after: multiset<Mesh> := multiset(o), multiset(RemoveAt(o, i));
        assert after + multiset{last} == before;
      }
    }
  }

  class RecursionModule {
    const base: ModuleBase
    const gfx: GraphicsEngine
    /** The frames on the drawn call stack, bottom first. */
    var frames: seq<Mesh>
    /** The most frames the call stack has held since the run began. */
    ghost var maxDepth: nat

    ghost predicate Valid()
      reads this, base, gfx, gfx.resources
    {
      base.gfx == gfx && gfx.Valid() && |frames| <= maxDepth
    }

    /** A fresh module has an empty call stack and an empty scene. */
    constructor (engine: GraphicsEngine)
      requires engine.Valid()
      modifies engine, engine.hoveredObject
      ensures Valid() && gfx == engine && fresh(base) && !base.cancelToken
      ensures frames == [] && maxDepth == 0 && gfx.objects == [] && gfx.labels == [] && gfx.arrows == []
    {
      base := new ModuleBase(engine);
      gfx := engine;
      frames := [];
      maxDepth := 0;
    }

    /** Takes the frames of an earlier run off the scene, empties the call
        stack, then computes `factorial(n)` with its frames shown. When it
        completes, the result is `n!`, the stack is empty again and the most
        frames it held during the run is `max(n, 1)`. A torn-down module
        stops with the first frame pushed. */
    method RunFact(n: int) returns (result: int, status: Status)
      requires Valid()
      modifies this, gfx, gfx.resources, gfx.hoveredObject
      ensures Valid() && gfx.arrows == old(gfx.arrows)
      ensures status == (if base.cancelToken then Cancelled else Done)
      ensures var cleared := RemoveMeshes(old(gfx.objects), old(frames));
              var labels := RemoveLabels(old(gfx.labels), old(frames));
              if status == Done then
                result == Factorial(n) && result == Product(1, n)
                && frames == [] && maxDepth == Max(n, 1)
                && gfx.objects == cleared && gfx.labels == labels
              else
                |frames| == 1 && maxDepth == 1 && fresh(frames[0]) && gfx.objects == cleared + [frames[0]]
    {
      ClearFrames();
      frames := [];
      maxDepth := 0;
      FactorialIsProduct(n);
      result, status := FactorialCall(n);
    }

    /** Unregisters every frame of the call stack, bottom first; the stack
        itself is left as it is. */
    method ClearFrames()
      requires Valid()
      modifies gfx, gfx.hoveredObject
      ensures Valid() && gfx.arrows == old(gfx.arrows)
      ensures gfx.objects == RemoveMeshes(old(gfx.objects), frames)
      ensures gfx.labels == RemoveLabels(old(gfx.labels), frames)
    {
      var i := 0;
      while i < |frames|
        invariant 0 <= i <= |frames| && Valid() && gfx.arrows == old(gfx.arrows)
        invariant gfx.objects == RemoveMeshes(old(gfx.objects), frames[..i])
        invariant gfx.labels == RemoveLabels(old(gfx.labels), frames[..i])
      {
        assert frames[..i + 1][..i] == frames[..i];
        gfx.RemoveObj(ByMesh(frames[i]));
        i := i + 1;
      }
      assert frames[..i] == frames;
    }

    /** One call of `factorial(n)`: pushes and shows its frame, suspends;
        at or below 1 it returns 1, otherwise it recurses on `n - 1` and
        returns `n` times that result; either way it then pops its own
        frame and takes it off the scene. On return the stack and the scene
        are as before the call and the stack held `max(n, 1)` more frames at
        its highest. A torn-down module stops at the first suspension with
        the frame left pushed. */
    method FactorialCall(n: int) returns (r: int, status: Status)
      requires Valid()
      modifies this, gfx, gfx.resources
      ensures Valid() && gfx.arrows == old(gfx.arrows) && gfx.hoveredObject == old(gfx.hoveredObject)
      ensures status == (if base.cancelToken then Cancelled else Done)
      ensures status == Done ==>
                r == Factorial(n) && frames == old(frames) && maxDepth == Max(old(maxDepth), |old(frames)| + Max(n, 1))
                && gfx.objects == old(gfx.objects) && gfx.labels == old(gfx.labels)
      ensures status == Cancelled ==>
                |frames| == |old(frames)| + 1 && frames[..|old(frames)|] == old(frames)
                && maxDepth == Max(old(maxDepth), |frames|)
                && fresh(frames[|old(frames)|]) && gfx.objects == old(gfx.objects) + [frames[|old(frames)|]]
      decreases if n <= 1 then 0 else n, 1
    {
      ghost var objs0, labels0 := gfx.objects, gfx.labels;
      var frame := PushFrame(n);
      var resumed := base.Sleep();
      if !resumed {
        return 0, Cancelled;
      }
      if n <= 1 {
        r := ReturnOne(n, frame);
      } else {
        r := Recurse(n, frame);
      }
      resumed := base.Sleep();
      PopFrame(frame, objs0, labels0, if gfx.labelsLayer then [Label(frame, Call("fact", n))] else []);
      status := Done;
    }

    /** The base case: the frame turns green and says it returns 1. */
    method ReturnOne(n: int, frame: Mesh) returns (r: int)
      requires Valid() && n <= 1
      modifies gfx.resources, frame`material, frame`hoverText
      ensures Valid() && r == Factorial(n)
      ensures frame.material.color == SUCCESS
      ensures frame.hoverText == Some([Field("Call", Call("factorial", n)), Field("State", Then("Returning", Number(1)))])
    {
      r := 1;
      MarkFrame(frame, SUCCESS, [Field("Call", Call("factorial", n)), Field("State", Then("Returning", Number(r)))]);
    }

    /** Recolours a frame and sets the text shown when it is hovered. */
    method MarkFrame(frame: Mesh, color: nat, hover: seq<HoverLine>)
      requires Valid()
      modifies gfx.resources, frame`material, frame`hoverText
      ensures Valid() && frame.material.color == color && frame.hoverText == Some(hover)
    {
      Recolor(gfx.resources, frame, color);
      frame.hoverText := Some(hover);
    }

    /** The recursive case: the frame turns orange and waits for
        `factorial(n - 1)`, which runs with its own frame on top; then the
        frame turns green and says it returns `n` times that result. The
        stack and the scene are as they were after each inner call. */
    method Recurse(n: int, frame: Mesh) returns (r: int)
      requires Valid() && n > 1 && !base.cancelToken
      modifies this, gfx, gfx.resources, frame`material, frame`hoverText
      ensures Valid() && r == Factorial(n) && maxDepth == Max(old(maxDepth), |frames| + n - 1)
      ensures frames == old(frames) && gfx.objects == old(gfx.objects) && gfx.labels == old(gfx.labels)
      ensures gfx.arrows == old(gfx.arrows) && gfx.hoveredObject == old(gfx.hoveredObject)
      ensures frame.material.color == SUCCESS
      ensures frame.hoverText == Some([Field("Call", Call("factorial", n)), Field("State", Then("Returning", Number(r)))])
      decreases n, 0
    {
      MarkFrame(frame, WARNING, [Field("Call", Call("factorial", n)), Field("State", Then("Waiting for", Call("factorial", n - 1)))]);
      var inner, status;
      inner, status := FactorialCall(n - 1);
      r := n * inner;
      MarkFrame(frame, SUCCESS, [Field("Call", Call("factorial", n)), Field("State", Then("Returning", Number(r)))]);
    }

    /** Builds the frame of `factorial(n)`, shows it labelled `fact(n)` and
        pushes it on the call stack, which may set a new greatest depth. */
    method PushFrame(n: int) returns (frame: Mesh)
      requires Valid()
      modifies this`frames, this`maxDepth, gfx, gfx.resources
      ensures Valid() && fresh(frame) && frames == old(frames) + [frame]
      ensures maxDepth == Max(old(maxDepth), |frames|)
      ensures frame.material.color == PRIMARY
      ensures frame.hoverText == Some([Field("Call", Call("factorial", n)), Field("State", Words("Executing"))])
      ensures gfx.objects == old(gfx.objects) + [frame]
      ensures gfx.labels == old(gfx.labels) + (if gfx.labelsLayer then [Label(frame, Call("fact", n))] else [])
      ensures gfx.arrows == old(gfx.arrows) && gfx.hoveredObject == old(gfx.hoveredObject)
    {
      frame := NewMesh(gfx.resources, BOX, FRAME_BOX, PRIMARY);
      frame.hoverText := Some([Field("Call", Call("factorial", n)), Field("State", Words("Executing"))]);
      gfx.AddObj(frame, Some(Call("fact", n)), None);
      frames := frames + [frame];
      maxDepth := Max(maxDepth, |frames|);
    }

    /** Pops the top frame, which is `frame`, and takes it off the scene,
        giving back the registry as it was before `frame` was shown. */
    method PopFrame(frame: Mesh, ghost objs0: seq<Mesh>, ghost labels0: seq<Label>, ghost added: seq<Label>)
      requires Valid() && |frames| > 0 && frames[|frames| - 1] == frame && gfx.hoveredObject != frame
      requires frame !in objs0 && forall k :: 0 <= k < |labels0| ==> labels0[k].mesh != frame
      requires added == [] || (|added| == 1 && added[0].mesh == frame)
      requires gfx.objects == objs0 + [frame] && gfx.labels == labels0 + added
      modifies this`frames, gfx
      ensures Valid() && frames == old(frames)[..|old(frames)| - 1]
      ensures gfx.objects == objs0 && gfx.labels == labels0
      ensures gfx.arrows == old(gfx.arrows) && gfx.hoveredObject == old(gfx.hoveredObject)
    {
      frames := frames[..|frames| - 1];
      AddThenRemove(objs0, labels0, frame, added);
      gfx.RemoveObj(ByMesh(frame));
    }
  }
}
