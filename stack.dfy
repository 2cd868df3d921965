/** The bounded stack demonstration: values are pushed on and popped off
    the top, at most five at a time; a push onto a full stack and a pop
    from an empty one are rejected with a notice and change nothing. */
module Stack {
  import opened Common
  import opened Resources
  import opened Graphics
  import opened Lifecycle

  const MAX_STACK_SIZE: nat := 5
  /** The shapes of the base and of every block. */
  const BOX := "box"
  const BASE_BOX: seq<string> := ["4", "0.2", "4"]
  const BLOCK_BOX: seq<string> := ["1.5", "1", "1.5"]

  const OVERFLOW := Notice(Error, "Error: Stack Overflow! Max capacity reached.")
  const UNDERFLOW := Notice(Error, "Error: Stack Underflow! Cannot pop from an empty stack.")
  const EMPTY_PEEK := Notice(Warning, "Warning: Stack is empty. Nothing to peek at.")

  class StackModule {
    const base: ModuleBase
    const gfx: GraphicsEngine
    /** The stacked values, bottom first. */
    var items: seq<Item>

    ghost predicate Valid()
      reads this, base, gfx, gfx.resources
    {
      base.gfx == gfx && gfx.Valid() && |items| <= MAX_STACK_SIZE
    }

    /** A fresh stack is empty; the scene holds only the labelled base. */
    constructor (engine: GraphicsEngine)
      requires engine.Valid()
      modifies engine, engine.hoveredObject, engine.resources
      ensures Valid() && gfx == engine && fresh(base) && !base.cancelToken
      ensures items == []
      ensures |gfx.objects| == 1 && fresh(gfx.objects[0]) && gfx.arrows == []
      ensures gfx.labels == (if gfx.labelsLayer then [Label(gfx.objects[0], Words("Stack Base"))] else [])
    {
      base := new ModuleBase(engine);
      gfx := engine;
      items := [];
      new;
      var baseMesh := NewMesh(gfx.resources, BOX, BASE_BOX, BASE);
      gfx.AddObj(baseMesh, Some(Words("Stack Base")), None);
    }

    /** Pushes `floor(r * 99)`. On a full stack a rejected block appears,
        the overflow is reported and the block is taken away again; the
        stack is unchanged. Otherwise the value's block falls into place
        and the value goes on top. A suspension that finds the module torn
        down stops the push before the value is stored. */
    method Push(r: real) returns (status: Status)
      requires Valid() && 0.0 <= r < 1.0
      modifies this, gfx, gfx.resources
      ensures Valid()
      ensures gfx.arrows == old(gfx.arrows) && gfx.hoveredObject == old(gfx.hoveredObject)
      ensures var n := |old(items)|;
              var val := RandomBelow(r, 99);
              if n >= MAX_STACK_SIZE then
                items == old(items)
                && status == (if base.cancelToken then Cancelled else Rejected(OVERFLOW))
                && (!base.cancelToken ==> gfx.objects == old(gfx.objects) && gfx.labels == old(gfx.labels))
              else if base.cancelToken then
                items == old(items) && status == Cancelled
                && |gfx.objects| == |old(gfx.objects)| + 1 && gfx.objects[..|old(gfx.objects)|] == old(gfx.objects)
              else
                status == Done
                && |items| == n + 1 && items[..n] == old(items) && items[n].val == val
                && fresh(items[n].mesh)
                && gfx.objects == old(gfx.objects) + [items[n].mesh]
                && items[n].mesh.hoverText == Some([Field("Value", Number(val)), Field("Index", NumberWords(n, "(Current Top)"))])
    {
      var val := RandomBelow(r, 99);
      if |items| >= MAX_STACK_SIZE {
        status := RejectPush(val);
        return;
      }
      var mesh := NewMesh(gfx.resources, BOX, BLOCK_BOX, PRIMARY);
      mesh.hoverText := Some([Field("Value", Number(val)), Field("Index", NumberWords(|items|, "(Current Top)"))]);
      gfx.AddObj(mesh, Some(Number(val)), None);
      var resumed := base.Sleep();
      if !resumed {
        return Cancelled;
      }
      items := items + [Item(val, mesh)];
      return Done;
    }

    /** The overflow branch of a push: a red block carrying the value is
        shown, the overflow reported, and the block taken away again. */
    method RejectPush(val: int) returns (status: Status)
      requires Valid()
      modifies gfx, gfx.resources
      ensures Valid()
      ensures gfx.arrows == old(gfx.arrows) && gfx.hoveredObject == old(gfx.hoveredObject)
      ensures status == (if base.cancelToken then Cancelled else Rejected(OVERFLOW))
      ensures !base.cancelToken ==> gfx.objects == old(gfx.objects) && gfx.labels == old(gfx.labels)
    {
      ghost var objs0, labels0 := gfx.objects, gfx.labels;
      var tempMesh := ShowRejected(val);
      var resumed := base.Sleep();
      if !resumed {
        return Cancelled;
      }
      // the rejection animation's own suspensions resume like the first
      AddThenRemove(objs0, labels0, tempMesh, gfx.labels[|labels0|..]);
      gfx.RemoveObj(ByMesh(tempMesh));
      return Rejected(OVERFLOW);
    }

    /** The red block of a rejected value, registered with the value as
        its label. */
    method ShowRejected(val: int) returns (mesh: Mesh)
      requires Valid()
      modifies gfx, gfx.resources
      ensures Valid() && fresh(mesh) && mesh.material.color == ERROR
      ensures mesh.hoverText == Some([Field("Value", Number(val)), Field("State", Words("Rejected (Stack Full)"))])
      ensures gfx.objects == old(gfx.objects) + [mesh]
      ensures gfx.labels == old(gfx.labels) + (if gfx.labelsLayer then [Label(mesh, Number(val))] else [])
      ensures gfx.arrows == old(gfx.arrows) && gfx.hoveredObject == old(gfx.hoveredObject)
    {
      mesh := NewMesh(gfx.resources, BOX, BLOCK_BOX, ERROR);
      gfx.AddObj(mesh, Some(Number(val)), None);
      mesh.hoverText := Some([Field("Value", Number(val)), Field("State", Words("Rejected (Stack Full)"))]);
    }

    /** Pops the top value. On an empty stack the underflow is reported and
        nothing changes (the base is never found for highlighting, since no
        mesh records a label text). Otherwise the top value leaves the stack
        at once, its block turns red, flies off and is unregistered; a
        torn-down module leaves the block registered. */
    method Pop() returns (status: Status)
      requires Valid()
      modifies this, gfx, gfx.resources, Meshes(items)
      ensures Valid()
      ensures gfx.arrows == old(gfx.arrows)
      ensures var n := |old(items)|;
              if n == 0 then
                status == Rejected(UNDERFLOW) && items == old(items)
                && gfx.objects == old(gfx.objects) && gfx.labels == old(gfx.labels)
              else
                var top := old(items)[n - 1].mesh;
                items == old(items)[..n - 1]
                && top.material.color == ERROR
                && status == (if base.cancelToken then Cancelled else Done)
                && gfx.objects == (if base.cancelToken then old(gfx.objects)
                                   else RemoveAt(old(gfx.objects), IndexOf(old(gfx.objects), top)))
    {
      if |items| == 0 {
        return Rejected(UNDERFLOW);
      }
      var popped := items[|items| - 1];
      items := items[..|items| - 1];
      var red := gfx.resources.GetMaterial(ERROR, false);
      popped.mesh.material := red;
      var resumed := base.Sleep();
      if !resumed {
        return Cancelled;
      }
      gfx.RemoveObj(ByMesh(popped.mesh));
      return Done;
    }

    /** Shows the top value without removing it: its block is highlighted
        for a moment and then gets its material back. On an empty stack a
        warning is given. The stack never changes; a torn-down module leaves
        the block highlighted. */
    method Peek() returns (status: Status)
      requires Valid()
      modifies gfx.resources, Meshes(items)
      ensures Valid()
      ensures items == old(items)
      ensures |items| == 0 ==> status == Rejected(EMPTY_PEEK)
      ensures |items| > 0 ==>
                var top := items[|items| - 1].mesh;
                status == (if base.cancelToken then Cancelled else Done)
                && (status == Done ==> top.material == old(top.material))
                && (status == Cancelled ==> top.material.color == HIGHLIGHT)
    {
      if |items| == 0 {
        return Rejected(EMPTY_PEEK);
      }
      var top := items[|items| - 1];
      var originalMaterial := top.mesh.material;
      var lit := gfx.resources.GetMaterial(HIGHLIGHT, false);
      top.mesh.material := lit;
      var resumed := base.Sleep();
      if !resumed {
        return Cancelled;
      }
      top.mesh.material := originalMaterial;
      return Done;
    }

    /** Empties the stack and the scene, then puts the labelled base back. */
    method ResetStack()
      requires Valid()
      modifies this, gfx, gfx.resources, gfx.hoveredObject
      ensures Valid()
      ensures items == []
      ensures |gfx.objects| == 1 && fresh(gfx.objects[0]) && gfx.arrows == [] && gfx.hoveredObject == null
      ensures gfx.labels == (if gfx.labelsLayer then [Label(gfx.objects[0], Words("Stack Base"))] else [])
    {
      gfx.Clear();
      items := [];
      var baseMesh := NewMesh(gfx.resources, BOX, BASE_BOX, BASE);
      gfx.AddObj(baseMesh, Some(Words("Stack Base")), None);
    }
  }
}
