/** The bounded queue demonstration: values enter at the rear and leave
    from the front, at most eight at a time; after every change each block
    is moved to its slot and its tooltip names its position. */
module Queue {
  import opened Common
  import opened Resources
  import opened Graphics
  import opened Lifecycle

  const MAX_QUEUE_SIZE: nat := 8
  /** The shapes of the path and of every block. */
  const BOX := "box"
  const PATH_BOX: seq<string> := ["13.5", "0.2", "2"]
  const BLOCK_BOX: seq<string> := ["1.2", "1", "1.2"]

  const FULL := Notice(Error, "Error: Queue is full (Overflow)! Cannot enqueue more items.")
  const EMPTY := Notice(Error, "Error: Queue is empty (Underflow)! Nothing to dequeue.")
  const EMPTY_PEEK := Notice(Warning, "Warning: Queue is empty. Nothing to peek at.")

  /** The tooltip of the block in slot `i`. */
  function PositionHover(i: int, val: int): Hover {
    [Field("Position", Number(i)), Field("Value", Number(val))]
  }

  /** The front item's mesh is not among the rest, which stay distinct. */
  lemma FrontLeaves(items: seq<Item>)
    requires |items| > 0 && DistinctMeshes(items)
    ensures DistinctMeshes(items[1..]) && items[0].mesh !in Meshes(items[1..])
    ensures Meshes(items[1..]) <= Meshes(items)
  {
  }

  class QueueModule {
    const base: ModuleBase
    const gfx: GraphicsEngine
    /** The queued values, front first. */
    var items: seq<Item>

    ghost predicate Valid()
      reads this, base, gfx, gfx.resources
    {
      base.gfx == gfx && gfx.Valid() && |items| <= MAX_QUEUE_SIZE && DistinctMeshes(items)
    }

    /** A fresh queue is empty; the scene holds only the labelled path. */
    constructor (engine: GraphicsEngine)
      requires engine.Valid()
      modifies engine, engine.hoveredObject, engine.resources
      ensures Valid() && gfx == engine && fresh(base) && !base.cancelToken
      ensures items == []
      ensures |gfx.objects| == 1 && fresh(gfx.objects[0]) && gfx.arrows == []
      ensures gfx.labels == (if gfx.labelsLayer then [Label(gfx.objects[0], Words("Queue Path"))] else [])
    {
      base := new ModuleBase(engine);
      gfx := engine;
      items := [];
      new;
      var path := NewMesh(gfx.resources, BOX, PATH_BOX, BASE);
      gfx.AddObj(path, Some(Words("Queue Path")), None);
    }

    /** Moves every block to its slot, front first, and relabels block `i`
        with position `i`. Each block's move suspends; a torn-down module
        stops at the first block, before any relabelling. */
    method RepositionElements() returns (resumed: bool)
      requires Valid()
      modifies Meshes(items)
      ensures Valid()
      ensures resumed <==> !base.cancelToken || |items| == 0
      ensures resumed ==> forall i :: 0 <= i < |items| ==>
                items[i].mesh.hoverText == Some(PositionHover(i, items[i].val))
      ensures !resumed ==> forall i :: 0 <= i < |items| ==>
                items[i].mesh.hoverText == old(items[i].mesh.hoverText)
      ensures forall i :: 0 <= i < |items| ==>
                items[i].mesh.material == old(items[i].mesh.material)
    {
      var i := 0;
      while i < |items|
        invariant 0 <= i <= |items|
        invariant i > 0 ==> !base.cancelToken
        invariant forall k :: 0 <= k < i ==> items[k].mesh.hoverText == Some(PositionHover(k, items[k].val))
        invariant forall k :: i <= k < |items| ==> items[k].mesh.hoverText == old(items[k].mesh.hoverText)
        invariant forall k :: 0 <= k < |items| ==>
                    items[k].mesh.material == old(items[k].mesh.material)
      {
        var ok := base.Sleep();
        if !ok {
          return false;
        }
        items[i].mesh.hoverText := Some(PositionHover(i, items[i].val));
        i := i + 1;
      }
      return true;
    }

    /** Enqueues `floor(r * 99)` at the rear, unless the queue is full, and
        then moves the blocks to their slots. */
    method Enqueue(r: real) returns (status: Status)
      requires Valid() && 0.0 <= r < 1.0
      modifies this, gfx, gfx.resources, Meshes(items)
      ensures Valid()
      ensures gfx.arrows == old(gfx.arrows) && gfx.hoveredObject == old(gfx.hoveredObject)
      ensures var n := |old(items)|;
              if n >= MAX_QUEUE_SIZE then
                status == Rejected(FULL) && items == old(items)
                && gfx.objects == old(gfx.objects) && gfx.labels == old(gfx.labels)
              else
                |items| == n + 1 && items[..n] == old(items) && items[n].val == RandomBelow(r, 99)
                && fresh(items[n].mesh)
                && gfx.objects == old(gfx.objects) + [items[n].mesh]
                && status == (if base.cancelToken then Cancelled else Done)
                && (status == Done ==> forall i :: 0 <= i <= n ==>
                      items[i].mesh.hoverText == Some(PositionHover(i, items[i].val)))
    {
      if |items| >= MAX_QUEUE_SIZE {
        return Rejected(FULL);
      }
      var val := RandomBelow(r, 99);
      var mesh := AddBlock(val);
      items := items + [Item(val, mesh)];
      var resumed := RepositionElements();
      return if resumed then Done else Cancelled;
    }

    /** The block of a value being enqueued: a blue box labelled with the
        value, its tooltip saying it is on its way. */
    method AddBlock(val: int) returns (mesh: Mesh)
      requires Valid()
      modifies gfx, gfx.resources
      ensures Valid() && fresh(mesh) && mesh.material.color == PRIMARY
      ensures mesh.hoverText == Some([Field("Value", Number(val)), Field("Position", Words("Enqueueing"))])
      ensures gfx.objects == old(gfx.objects) + [mesh]
      ensures gfx.arrows == old(gfx.arrows) && gfx.hoveredObject == old(gfx.hoveredObject)
    {
      mesh := NewMesh(gfx.resources, BOX, BLOCK_BOX, PRIMARY);
      mesh.hoverText := Some([Field("Value", Number(val)), Field("Position", Words("Enqueueing"))]);
      gfx.AddObj(mesh, Some(Number(val)), None);
    }

    /** Takes the front value off and retires its block (turned red, moved
        away and unregistered), then moves the remaining blocks forward and
        relabels them; an empty queue is reported and left alone. */
    method Dequeue() returns (status: Status)
      requires Valid()
      modifies this, gfx, gfx.resources, Meshes(items)
      ensures Valid()
      ensures gfx.arrows == old(gfx.arrows)
      ensures var n := |old(items)|;
              if n == 0 then
                status == Rejected(EMPTY) && items == old(items)
                && gfx.objects == old(gfx.objects) && gfx.labels == old(gfx.labels)
              else
                var front := old(items)[0].mesh;
                items == old(items)[1..]
                && front.material.color == ERROR
                && status == (if base.cancelToken then Cancelled else Done)
                && gfx.objects == (if base.cancelToken then old(gfx.objects)
                                   else RemoveAt(old(gfx.objects), IndexOf(old(gfx.objects), front)))
                && (status == Done ==> forall i :: 0 <= i < |items| ==>
                      items[i].mesh.hoverText == Some(PositionHover(i, items[i].val)))
    {
      if |items| == 0 {
        return Rejected(EMPTY);
      }
      status := DequeueFront();
    }

    /** Dequeue of a non-empty queue: the front block turns red and leaves
        the queue, then leaves the scene, and the others move up. */
    method DequeueFront() returns (status: Status)
      requires Valid() && |items| > 0
      modifies this, gfx, gfx.resources, Meshes(items)
      ensures Valid()
      ensures gfx.arrows == old(gfx.arrows)
      ensures var front := old(items)[0].mesh;
              items == old(items)[1..]
              && front.material.color == ERROR
              && status == (if base.cancelToken then Cancelled else Done)
              && gfx.objects == (if base.cancelToken then old(gfx.objects)
                                 else RemoveAt(old(gfx.objects), IndexOf(old(gfx.objects), front)))
              && (status == Done ==> forall i :: 0 <= i < |items| ==>
                    items[i].mesh.hoverText == Some(PositionHover(i, items[i].val)))
    {
      FrontLeaves(items);
      var dequeued := items[0];
      items := items[1..];
      var red := gfx.resources.GetMaterial(ERROR, false);
      dequeued.mesh.material := red;
      var ok := base.Sleep();
      if !ok {
        return Cancelled;
      }
      // the departure animation's suspensions resume like the first
      gfx.RemoveObj(ByMesh(dequeued.mesh));
      var resumed := RepositionElements();
      return Done;
    }

    /** Highlights the front block for a moment without changing the queue;
        an empty queue gets a warning. */
    method Peek() returns (status: Status)
      requires Valid()
      modifies gfx.resources, Meshes(items)
      ensures Valid()
      ensures items == old(items)
      ensures |items| == 0 ==> status == Rejected(EMPTY_PEEK)
      ensures |items| > 0 ==>
                var front := items[0].mesh;
                status == (if base.cancelToken then Cancelled else Done)
                && (status == Done ==> front.material == old(front.material))
                && (status == Cancelled ==> front.material.color == HIGHLIGHT)
    {
      if |items| == 0 {
        return Rejected(EMPTY_PEEK);
      }
      var front := items[0];
      var originalMaterial := front.mesh.material;
      var lit := gfx.resources.GetMaterial(HIGHLIGHT, false);
      front.mesh.material := lit;
      var ok := base.Sleep();
      if !ok {
        return Cancelled;
      }
      front.mesh.material := originalMaterial;
      return Done;
    }
  }
}
