/** The linked list demonstration, singly or doubly linked: a list of
    values that grows and shrinks at both ends. After every change the list
    is redrawn: each node's tooltip names its index (and HEAD or TAIL), a
    next arrow joins each node to its successor (and a prev arrow back,
    when doubly linked), HEAD and TAIL markers point at the ends and NULL
    boxes stand past them. */
module LinkedList {
  import opened Common
  import opened Resources
  import opened Graphics
  import opened Lifecycle

  const NULL_NEXT := "nullNextMesh"
  const NULL_PREV := "nullPrevMesh"
  const END_ARROWS := ["headArrow", "tailArrow"]
  const NULL_ARROWS := ["nullNextArrow", "nullPrevArrow"]
  /** Node and NULL boxes share one shape. */
  const BOX := "box"
  const NODE_BOX: seq<string> := ["1.2", "1", "1.2"]

  const EMPTY_HEAD := Notice(Error, "Error: Cannot remove Head from an empty list.")
  const EMPTY_TAIL := Notice(Error, "Error: Cannot remove Tail from an empty list.")
  /** What the redraw throws as written: the engine has no `clearArrows`. */
  const NO_CLEAR_ARROWS := "TypeError: GFX.clearArrows is not a function"

  // ---------------------------------------------------------------
  // The screen labels of the HEAD and TAIL markers
  // ---------------------------------------------------------------

  /** A screen label element: which element it is (elements are told apart
      by the order they were made in) and the text it shows. */
  datatype LabelElement = LabelElement(serial: nat, text: string)

  /** The label table after showing `text` under `id`: the element already
      kept for `id` is reused, otherwise a new one is made. Also gives the
      number of elements made so far. */
  function WithLabel(table: map<string, LabelElement>, made: nat, id: string, text: string)
    : (map<string, LabelElement>, nat)
  {
    if id in table then (table[id := LabelElement(table[id].serial, text)], made)
    else (table[id := LabelElement(made, text)], made + 1)
  }

  /** Every key the table keeps names an element made earlier. */
  predicate SerialsBelow(table: map<string, LabelElement>, made: nat) {
    forall id | id in table :: table[id].serial < made
  }

  /** Showing a label keeps the table well formed, reuses the element an id
      already has, makes exactly one element for a new id, shows the text,
      and touches no other id. */
  lemma LabelShown(table: map<string, LabelElement>, made: nat, id: string, text: string)
    requires SerialsBelow(table, made)
    ensures var (t, m) := WithLabel(table, made, id, text);
            SerialsBelow(t, m) && t.Keys == table.Keys + {id} && t[id].text == text
            && (id in table ==> t[id].serial == table[id].serial && m == made)
            && (id !in table ==> m == made + 1 && forall other | other in table :: table[other].serial != t[id].serial)
            && forall other | other in table && other != id :: t[other] == table[other]
  {
  }

  /** Removing a label that was just added for a new id gives the table
      back; removing twice is removing once. */
  lemma LabelRemovedAfterShown(table: map<string, LabelElement>, made: nat, id: string, text: string)
    requires id !in table
    ensures WithLabel(table, made, id, text).0 - {id} == table
    ensures (table - {id}) - {id} == table - {id}
  {
  }

  /** The label table after the HEAD and TAIL markers are replaced: both
      labels are removed and then shown again. */
  function MarkerLabels(table: map<string, LabelElement>, made: nat): (map<string, LabelElement>, nat) {
    var (t1, m1) := WithLabel(table - {"head"} - {"tail"}, made, "head", "HEAD");
    WithLabel(t1, m1, "tail", "TAIL")
  }

  /** Replacing the markers makes two new elements, one showing HEAD and
      one showing TAIL, and leaves every other label as it was. */
  lemma MarkerLabelsReplaced(table: map<string, LabelElement>, made: nat)
    requires SerialsBelow(table, made)
    ensures var (t, m) := MarkerLabels(table, made);
            SerialsBelow(t, m) && m == made + 2
            && t.Keys == table.Keys + {"head", "tail"}
            && t["head"] == LabelElement(made, "HEAD") && t["tail"] == LabelElement(made + 1, "TAIL")
            && forall id | id in table && id != "head" && id != "tail" :: t[id] == table[id]
  {
    var t0 := table - {"head"} - {"tail"};
    assert "tail" != "head";
    LabelShown(t0, made, "head", "HEAD");
    var (t1, m1) := WithLabel(t0, made, "head", "HEAD");
    LabelShown(t1, m1, "tail", "TAIL");
  }

  // ---------------------------------------------------------------
  // What a redraw draws
  // ---------------------------------------------------------------

  /** The tooltip of node `i` of a list of `n` nodes. */
  function NodeHover(i: int, val: int, n: int): Hover {
    [Field("Value", Number(val)), Field("Index", Number(i))]
      + (if i == 0 then [Tag("HEAD")] else [])
      + (if i == n - 1 then [Tag("TAIL")] else [])
  }

  /** The tooltip a node carries from its insertion until a redraw. */
  function InsertedHover(val: int, at: string): Hover {
    [Field("Value", Number(val)), Field("Current", Words(at))]
  }

  /** The pointer arrows of one link: next, and prev when doubly linked. */
  function LinkArrows(doubly: bool): seq<Arrow> {
    [Arrow(PRIMARY, None)] + (if doubly then [Arrow(SUCCESS, None)] else [])
  }

  /** The pointer arrows of the first `links` links, in drawing order. */
  function PointerArrows(links: nat, doubly: bool): (r: seq<Arrow>)
  {
    if links == 0 then [] else PointerArrows(links - 1, doubly) + LinkArrows(doubly)
  }

  /** A list of `n` nodes has one link fewer than nodes. */
  function Links(n: nat): nat {
    if n == 0 then 0 else n - 1
  }

  /** A list of `n` nodes is drawn with `n - 1` next arrows, and as many
      prev arrows exactly when it is doubly linked; none of them is named. */
  lemma {:induction false} PointerArrowsShape(links: nat, doubly: bool)
    ensures var r := PointerArrows(links, doubly);
            |r| == (if doubly then 2 * links else links)
            && forall k :: 0 <= k < |r| ==> r[k].name == None
  {
    if links > 0 {
      PointerArrowsShape(links - 1, doubly);
      var p := PointerArrows(links - 1, doubly);
      var r := PointerArrows(links, doubly);
      forall k | |p| <= k < |r|
        ensures r[k].name == None
      {
        assert r[k] == LinkArrows(doubly)[k - |p|];
      }
    }
  }

  /** Of those arrows, `links` are blue next arrows, and `links` more are
      green prev arrows when the list is doubly linked (none otherwise). */
  lemma {:induction false} PointerArrowColors(links: nat, doubly: bool)
    ensures multiset(PointerArrows(links, doubly))[Arrow(PRIMARY, None)] == links
    ensures multiset(PointerArrows(links, doubly))[Arrow(SUCCESS, None)] == (if doubly then links else 0)
  {
    if links > 0 {
      PointerArrowColors(links - 1, doubly);
      var p := PointerArrows(links - 1, doubly);
      assert multiset(p + LinkArrows(doubly)) == multiset(p) + multiset(LinkArrows(doubly));
    }
  }

  /** The HEAD and TAIL marker arrows; an empty list has none. */
  function EndArrows(n: nat): seq<Arrow> {
    if n > 0 then [Arrow(HIGHLIGHT, Some("headArrow")), Arrow(HIGHLIGHT, Some("tailArrow"))] else []
  }

  /** The arrows to the NULL boxes: past the tail, and before the head when
      doubly linked; an empty list has none. */
  function NullArrows(n: nat, doubly: bool): seq<Arrow> {
    if n == 0 then []
    else [Arrow(ERROR, Some("nullNextArrow"))] + (if doubly then [Arrow(ERROR, Some("nullPrevArrow"))] else [])
  }

  /** The arrows a finished redraw leaves for a list of `n` nodes. */
  function RedrawnArrows(n: nat, doubly: bool): seq<Arrow> {
    PointerArrows(Links(n), doubly) + EndArrows(n) + NullArrows(n, doubly)
  }

  /** Redrawing the markers keeps the pointer arrows, and drawing the NULL
      boxes keeps both. */
  lemma RedrawsKeepEarlierArrows(n: nat, doubly: bool)
    ensures KeepArrows(PointerArrows(Links(n), doubly), END_ARROWS) == PointerArrows(Links(n), doubly)
    ensures KeepArrows(PointerArrows(Links(n), doubly) + EndArrows(n), NULL_ARROWS)
            == PointerArrows(Links(n), doubly) + EndArrows(n)
  {
    var p := PointerArrows(Links(n), doubly);
    PointerArrowsShape(Links(n), doubly);
    KeepArrowsKeepsAll(p, END_ARROWS);
    KeepArrowsKeepsAll(p, NULL_ARROWS);
    KeepArrowsKeepsAll(EndArrows(n), NULL_ARROWS);
    KeepArrowsAppend(p, EndArrows(n), NULL_ARROWS);
  }

  /** A list of two or more nodes is drawn with at least one pointer
      arrow, so a scene without arrows is not the drawing of such a list:
      what the redraw as written leaves, since it draws no arrow at all. */
  lemma RedrawAsWrittenLosesPointers(n: nat, doubly: bool, arrows: seq<Arrow>)
    requires n >= 2 && forall k :: 0 <= k < |arrows| ==> arrows[k].name.Some?
    ensures arrows != RedrawnArrows(n, doubly)
    ensures multiset(RedrawnArrows(n, doubly))[Arrow(PRIMARY, None)] == n - 1
  {
    PointerArrowColors(Links(n), doubly);
    PointerArrowsShape(Links(n), doubly);
    FirstPointerArrow(Links(n), doubly);
    var p := PointerArrows(Links(n), doubly);
    assert RedrawnArrows(n, doubly) == p + EndArrows(n) + NullArrows(n, doubly);
    assert RedrawnArrows(n, doubly)[0] == p[0];
    assert multiset(RedrawnArrows(n, doubly)) == multiset(p) + multiset(EndArrows(n)) + multiset(NullArrows(n, doubly));
  }

  /** The first pointer arrow of a list with links is a next arrow. */
  lemma {:induction false} FirstPointerArrow(links: nat, doubly: bool)
    requires links > 0
    ensures PointerArrows(links, doubly)[0] == Arrow(PRIMARY, None)
  {
    if links > 1 {
      FirstPointerArrow(links - 1, doubly);
    }
  }

  class LinkedListModule {
    const base: ModuleBase
    const gfx: GraphicsEngine
    const doubly: bool
    /** The list's values, head first. */
    var nodes: seq<Item>
    /** The screen labels kept by id. */
    var labelElements: map<string, LabelElement>
    var labelsMade: nat

    /** The engine's own invariant, nodes drawn by distinct meshes, and a
        label table of made elements. */
    ghost predicate Valid()
      reads this, base, gfx, gfx.resources
    {
      base.gfx == gfx && gfx.Valid() && DistinctMeshes(nodes)
      && SerialsBelow(labelElements, labelsMade)
    }

    /** At most one NULL box of each kind is registered. */
    ghost predicate NullBoxesUnique()
      reads gfx
    {
      NameCount(gfx.names, NULL_NEXT) <= 1 && NameCount(gfx.names, NULL_PREV) <= 1
    }

    /** What a finished redraw leaves: every node's tooltip gives its index
        and end tags, the arrows are exactly the pointer, marker and NULL
        arrows, there is one NULL box past the tail, one before the head
        exactly when the list is doubly linked and not empty, and both
        marker labels are shown. */
    ghost predicate Drawn()
      reads this, gfx, Meshes(nodes)`hoverText
    {
      (forall i :: 0 <= i < |nodes| ==> nodes[i].mesh.hoverText == Some(NodeHover(i, nodes[i].val, |nodes|)))
      && gfx.arrows == RedrawnArrows(|nodes|, doubly)
      && NameCount(gfx.names, NULL_NEXT) == 1
      && NameCount(gfx.names, NULL_PREV) == (if doubly && |nodes| > 0 then 1 else 0)
      && "head" in labelElements && labelElements["head"].text == "HEAD"
      && "tail" in labelElements && labelElements["tail"].text == "TAIL"
    }

    /** A fresh list is empty and nothing is drawn yet. */
    constructor (engine: GraphicsEngine, isDoubly: bool)
      requires engine.Valid()
      modifies engine, engine.hoveredObject
      ensures Valid() && gfx == engine && fresh(base) && !base.cancelToken
      ensures doubly == isDoubly && nodes == [] && labelElements == map[]
      ensures gfx.objects == [] && gfx.arrows == []
    {
      base := new ModuleBase(engine);
      gfx := engine;
      doubly := isDoubly;
      nodes := [];
      labelElements := map[];
      labelsMade := 0;
    }

    /** Shows `text` in the label kept for `id`, making one if there is none. */
    method CreateHtmlLabel(id: string, text: string)
      requires Valid()
      modifies this`labelElements, this`labelsMade
      ensures Valid()
      ensures (labelElements, labelsMade) == WithLabel(old(labelElements), old(labelsMade), id, text)
    {
      LabelShown(labelElements, labelsMade, id, text);
      labelElements, labelsMade := WithLabel(labelElements, labelsMade, id, text).0, WithLabel(labelElements, labelsMade, id, text).1;
    }

    /** Drops the label kept for `id`, if any; no other id is touched. */
    method RemoveHtmlLabel(id: string)
      requires Valid()
      modifies this`labelElements
      ensures Valid()
      ensures labelElements == old(labelElements) - {id}
    {
      if id in labelElements {
        labelElements := labelElements - {id};
      }
    }

    /** Draws the pointer arrows and gives every node its index tooltip. */
    method DrawPointers()
      requires Valid()
      modifies gfx, Meshes(nodes)`hoverText
      ensures Valid()
      ensures gfx.arrows == old(gfx.arrows) + PointerArrows(Links(|nodes|), doubly)
      ensures gfx.objects == old(gfx.objects) && gfx.names == old(gfx.names) && gfx.labels == old(gfx.labels)
      ensures gfx.hoveredObject == old(gfx.hoveredObject)
      ensures forall i :: 0 <= i < |nodes| ==>
                nodes[i].mesh.hoverText == Some(NodeHover(i, nodes[i].val, |nodes|))
                && nodes[i].mesh.material == old(nodes[i].mesh.material)
    {
      var i := 0;
      var n := |nodes|;
      while i < n
        invariant Valid()
        invariant 0 <= i <= n
        invariant gfx.arrows == old(gfx.arrows) + PointerArrows(if i < n then i else Links(n), doubly)
        invariant gfx.objects == old(gfx.objects) && gfx.names == old(gfx.names) && gfx.labels == old(gfx.labels)
        invariant gfx.hoveredObject == old(gfx.hoveredObject)
        invariant forall k :: 0 <= k < i ==> nodes[k].mesh.hoverText == Some(NodeHover(k, nodes[k].val, n))
        invariant forall k :: 0 <= k < n ==> nodes[k].mesh.material == old(nodes[k].mesh.material)
      {
        DrawNode(i);
        i := i + 1;
      }
    }

    /** One step of the pointer drawing: node `i` gets its index tooltip,
        and the arrows of its link to the next node are drawn. */
    method DrawNode(i: nat)
      requires Valid() && i < |nodes|
      modifies gfx, nodes[i].mesh`hoverText
      ensures Valid()
      ensures nodes[i].mesh.hoverText == Some(NodeHover(i, nodes[i].val, |nodes|))
      ensures gfx.arrows == old(gfx.arrows) + (if i < |nodes| - 1 then LinkArrows(doubly) else [])
      ensures gfx.objects == old(gfx.objects) && gfx.names == old(gfx.names) && gfx.labels == old(gfx.labels)
      ensures gfx.hoveredObject == old(gfx.hoveredObject)
    {
      nodes[i].mesh.hoverText := Some(NodeHover(i, nodes[i].val, |nodes|));
      if i < |nodes| - 1 {
        gfx.AddArrow(PRIMARY, None);
        if doubly {
          gfx.AddArrow(SUCCESS, None);
        }
      }
    }

    /** Replaces the HEAD and TAIL markers: their labels are made anew, and
        their arrows are drawn when the list is not empty. */
    method UpdateHeadTailLabels()
      requires Valid()
      modifies this`labelElements, this`labelsMade, gfx
      ensures Valid()
      ensures gfx.arrows == KeepArrows(old(gfx.arrows), END_ARROWS) + EndArrows(|nodes|)
      ensures gfx.objects == old(gfx.objects) && gfx.names == old(gfx.names) && gfx.labels == old(gfx.labels)
      ensures gfx.hoveredObject == old(gfx.hoveredObject)
      ensures (labelElements, labelsMade) == MarkerLabels(old(labelElements), old(labelsMade))
    {
      RemoveHtmlLabel("head");
      RemoveHtmlLabel("tail");
      gfx.ClearNamedArrows(END_ARROWS);
      if |nodes| > 0 {
        gfx.AddArrow(HIGHLIGHT, Some("headArrow"));
        CreateHtmlLabel("head", "HEAD");
        gfx.AddArrow(HIGHLIGHT, Some("tailArrow"));
        CreateHtmlLabel("tail", "TAIL");
      } else {
        CreateHtmlLabel("head", "HEAD");
        CreateHtmlLabel("tail", "TAIL");
      }
    }

    /** Replaces the NULL boxes: the old ones go by name, with their
        arrows, and new ones are drawn. */
    method UpdateNullPointers()
      requires Valid() && NullBoxesUnique()
      modifies gfx, gfx.resources
      ensures Valid()
      ensures gfx.arrows == KeepArrows(old(gfx.arrows), NULL_ARROWS) + NullArrows(|nodes|, doubly)
      ensures NameCount(gfx.names, NULL_NEXT) == 1
      ensures NameCount(gfx.names, NULL_PREV) == (if doubly && |nodes| > 0 then 1 else 0)
    {
      RemoveNamed(NULL_NEXT, NULL_PREV);
      RemoveNamed(NULL_PREV, NULL_NEXT);
      gfx.ClearNamedArrows(NULL_ARROWS);
      DrawNullBoxes();
    }

    /** Draws the NULL boxes where there are none: one past the tail (at
        the centre, for an empty list) and, when doubly linked and not
        empty, one before the head, each with its arrow. */
    method DrawNullBoxes()
      requires Valid() && NameCount(gfx.names, NULL_NEXT) == 0 && NameCount(gfx.names, NULL_PREV) == 0
      modifies gfx, gfx.resources
      ensures Valid()
      ensures gfx.arrows == old(gfx.arrows) + NullArrows(|nodes|, doubly)
      ensures NameCount(gfx.names, NULL_NEXT) == 1
      ensures NameCount(gfx.names, NULL_PREV) == (if doubly && |nodes| > 0 then 1 else 0)
    {
      AddNullBox(NULL_NEXT, NULL_PREV);
      if |nodes| > 0 {
        gfx.AddArrow(ERROR, Some("nullNextArrow"));
        if doubly {
          AddNullBox(NULL_PREV, NULL_NEXT);
          gfx.AddArrow(ERROR, Some("nullPrevArrow"));
        }
      }
    }

    /** Removes the first mesh named `n` (one of the NULL boxes, `other`
        being the other one): none is left afterwards, and the other NULL
        box is untouched. */
    method RemoveNamed(n: string, other: string)
      requires Valid() && NullBoxesUnique()
      requires (n, other) == (NULL_NEXT, NULL_PREV) || (n, other) == (NULL_PREV, NULL_NEXT)
      modifies gfx
      ensures Valid()
      ensures NameCount(gfx.names, n) == 0
      ensures NameCount(gfx.names, other) == old(NameCount(gfx.names, other))
      ensures gfx.arrows == old(gfx.arrows)
    {
      ghost var names0 := gfx.names;
      var k := NamedIndex(gfx.names, n);
      gfx.RemoveObj(ByName(n));
      if k >= 0 {
        NameCountRemoveAt(names0, k, n);
        NameCountRemoveAt(names0, k, other);
      } else {
        NameCountZero(names0, n);
      }
    }

    /** Registers a red NULL box named `n`, labelled "NULL", where there
        is none; the other NULL box (`other`) is untouched. */
    method AddNullBox(n: string, other: string)
      requires Valid() && NameCount(gfx.names, n) == 0
      requires (n, other) == (NULL_NEXT, NULL_PREV) || (n, other) == (NULL_PREV, NULL_NEXT)
      modifies gfx, gfx.resources
      ensures Valid()
      ensures NameCount(gfx.names, n) == 1
      ensures NameCount(gfx.names, other) == old(NameCount(gfx.names, other))
      ensures gfx.arrows == old(gfx.arrows)
    {
      ghost var names0 := gfx.names;
      var box := NewMesh(gfx.resources, BOX, NODE_BOX, ERROR);
      gfx.AddObj(box, Some(Words("NULL")), Some(n));
      NameCountAppend(names0, Some(n), n);
      NameCountAppend(names0, Some(n), other);
    }

    /** The redraw with the call to the missing `clearArrows` left out (the
        lines after it already clear the arrows). The nodes' move into place
        suspends; a torn-down module stops there, with the arrows gone. */
    method Redraw() returns (status: Status)
      requires Valid() && NullBoxesUnique()
      modifies this, gfx, gfx.resources, Meshes(nodes)
      ensures Valid() && NullBoxesUnique()
      ensures nodes == old(nodes)
      ensures status == (if |nodes| > 0 && base.cancelToken then Cancelled else Done)
      ensures status == Cancelled ==> gfx.arrows == [] && gfx.objects == old(gfx.objects)
      ensures status == Done ==> Drawn() && labelElements.Keys == old(labelElements).Keys + {"head", "tail"}
      ensures forall i :: 0 <= i < |nodes| ==> nodes[i].mesh.material == old(nodes[i].mesh.material)
    {
      gfx.arrows := [];
      if |nodes| > 0 {
        var resumed := base.Sleep();
        if !resumed {
          return Cancelled;
        }
      }
      DrawList();
      return Done;
    }

    /** The drawing part of a redraw, once the nodes are in place and no
        arrow is left: pointers and tooltips, markers, NULL boxes. */
    method DrawList()
      requires Valid() && NullBoxesUnique() && gfx.arrows == []
      modifies this`labelElements, this`labelsMade, gfx, gfx.resources, Meshes(nodes)`hoverText
      ensures Valid() && NullBoxesUnique() && Drawn()
      ensures nodes == old(nodes)
      ensures labelElements.Keys == old(labelElements).Keys + {"head", "tail"}
    {
      DrawPointers();
      assert gfx.arrows == PointerArrows(Links(|nodes|), doubly);
      DrawEnds();
    }

    /** The markers and the NULL boxes, drawn after the pointer arrows. */
    method DrawEnds()
      requires Valid() && NullBoxesUnique() && gfx.arrows == PointerArrows(Links(|nodes|), doubly)
      modifies this`labelElements, this`labelsMade, gfx, gfx.resources
      ensures Valid()
      ensures gfx.arrows == RedrawnArrows(|nodes|, doubly)
      ensures NameCount(gfx.names, NULL_NEXT) == 1
      ensures NameCount(gfx.names, NULL_PREV) == (if doubly && |nodes| > 0 then 1 else 0)
      ensures "head" in labelElements && labelElements["head"].text == "HEAD"
      ensures "tail" in labelElements && labelElements["tail"].text == "TAIL"
      ensures labelElements.Keys == old(labelElements).Keys + {"head", "tail"}
    {
      RedrawsKeepEarlierArrows(|nodes|, doubly);
      UpdateHeadTailLabels();
      MarkerLabelsReplaced(old(labelElements), old(labelsMade));
      assert gfx.arrows == PointerArrows(Links(|nodes|), doubly) + EndArrows(|nodes|);
      UpdateNullPointers();
    }

    /** The redraw as written: its first step calls `clearArrows`, which the
        engine does not have, so it throws before changing anything: the
        arrows, the meshes, the labels and the tooltips stay as they were. */
    method RedrawAsWritten() returns (status: Status)
      requires Valid()
      ensures status == Failed(NO_CLEAR_ARROWS)
      ensures unchanged(this, gfx) && unchanged(Meshes(nodes))
    {
      return Failed(NO_CLEAR_ARROWS);
    }

    /** Add Head twice on a list with no arrows, as written: two nodes, and
        still no arrow, where the redraw should have drawn the pointer
        between them. */
    method AddHeadTwiceAsWritten(r1: real, r2: real) returns (status: Status)
      requires Valid() && NullBoxesUnique() && nodes == [] && gfx.arrows == []
      requires 0.0 <= r1 < 1.0 && 0.0 <= r2 < 1.0
      modifies this`nodes, gfx, gfx.resources
      ensures |nodes| == 2 && gfx.arrows == [] && status == Failed(NO_CLEAR_ARROWS)
      ensures gfx.arrows != RedrawnArrows(|nodes|, doubly)
    {
      status := AddHeadAsWritten(r1);
      status := AddHeadAsWritten(r2);
      RedrawAsWrittenLosesPointers(|nodes|, doubly, gfx.arrows);
    }

    /** The new head's block is made, with its insertion tooltip, and the
        value goes to the front of the list; no arrow changes. */
    method PrependNode(r: real)
      requires Valid() && NullBoxesUnique() && 0.0 <= r < 1.0
      modifies this`nodes, gfx, gfx.resources
      ensures Valid() && NullBoxesUnique()
      ensures |nodes| == |old(nodes)| + 1 && nodes[1..] == old(nodes)
      ensures nodes[0].val == RandomBelow(r, 99) && fresh(nodes[0].mesh)
      ensures nodes[0].mesh.hoverText == Some(InsertedHover(nodes[0].val, "Head"))
      ensures Values(nodes) == [RandomBelow(r, 99)] + Values(old(nodes))
      ensures gfx.objects == old(gfx.objects) + [nodes[0].mesh] && gfx.arrows == old(gfx.arrows)
    {
      var val := RandomBelow(r, 99);
      var mesh := AddNode(val, "Head");
      nodes := [Item(val, mesh)] + nodes;
      assert nodes[1..] == old(nodes);
      assert Values(nodes)[1..] == Values(old(nodes));
    }

    /** The new tail's block is made, with its insertion tooltip, and the
        value goes to the end of the list; no arrow changes. */
    method AppendNode(r: real)
      requires Valid() && NullBoxesUnique() && 0.0 <= r < 1.0
      modifies this`nodes, gfx, gfx.resources
      ensures Valid() && NullBoxesUnique()
      ensures |nodes| == |old(nodes)| + 1 && nodes[..|old(nodes)|] == old(nodes)
      ensures nodes[|old(nodes)|].val == RandomBelow(r, 99) && fresh(nodes[|old(nodes)|].mesh)
      ensures nodes[|old(nodes)|].mesh.hoverText == Some(InsertedHover(nodes[|old(nodes)|].val, "Tail"))
      ensures Values(nodes) == Values(old(nodes)) + [RandomBelow(r, 99)]
      ensures gfx.objects == old(gfx.objects) + [nodes[|old(nodes)|].mesh] && gfx.arrows == old(gfx.arrows)
    {
      var val := RandomBelow(r, 99);
      var mesh := AddNode(val, "Tail");
      nodes := nodes + [Item(val, mesh)];
      assert nodes[..|old(nodes)|] == old(nodes);
      assert Values(nodes)[..|old(nodes)|] == Values(old(nodes));
    }

    /** Inserts `floor(r * 99)` as the new head and redraws (the corrected
        redraw). */
    method AddHead(r: real) returns (status: Status)
      requires Valid() && NullBoxesUnique() && 0.0 <= r < 1.0
      modifies this, gfx, gfx.resources, Meshes(nodes)
      ensures Valid() && NullBoxesUnique()
      ensures |nodes| == |old(nodes)| + 1 && nodes[1..] == old(nodes)
      ensures nodes[0].val == RandomBelow(r, 99) && fresh(nodes[0].mesh)
      ensures Values(nodes) == [RandomBelow(r, 99)] + Values(old(nodes))
      ensures status == (if base.cancelToken then Cancelled else Done)
      ensures status == Done ==> Drawn()
    {
      PrependNode(r);
      status := Redraw();
    }

    /** Add Head as written: the node is added, then the redraw throws, so
        the arrows stay as they were and the new block keeps its insertion
        tooltip. */
    method AddHeadAsWritten(r: real) returns (status: Status)
      requires Valid() && NullBoxesUnique() && 0.0 <= r < 1.0
      modifies this`nodes, gfx, gfx.resources
      ensures Valid() && NullBoxesUnique()
      ensures |nodes| == |old(nodes)| + 1 && nodes[1..] == old(nodes) && fresh(nodes[0].mesh)
      ensures Values(nodes) == [RandomBelow(r, 99)] + Values(old(nodes))
      ensures nodes[0].mesh.hoverText == Some(InsertedHover(nodes[0].val, "Head"))
      ensures gfx.objects == old(gfx.objects) + [nodes[0].mesh] && gfx.arrows == old(gfx.arrows)
      ensures status == Failed(NO_CLEAR_ARROWS)
    {
      PrependNode(r);
      status := RedrawAsWritten();
    }

    /** Inserts `floor(r * 99)` as the new tail and redraws (the corrected
        redraw). */
    method AddTail(r: real) returns (status: Status)
      requires Valid() && NullBoxesUnique() && 0.0 <= r < 1.0
      modifies this, gfx, gfx.resources, Meshes(nodes)
      ensures Valid() && NullBoxesUnique()
      ensures |nodes| == |old(nodes)| + 1 && nodes[..|old(nodes)|] == old(nodes)
      ensures nodes[|old(nodes)|].val == RandomBelow(r, 99) && fresh(nodes[|old(nodes)|].mesh)
      ensures Values(nodes) == Values(old(nodes)) + [RandomBelow(r, 99)]
      ensures status == (if base.cancelToken then Cancelled else Done)
      ensures status == Done ==> Drawn()
    {
      AppendNode(r);
      status := Redraw();
    }

    /** Add Tail as written: the node is added, then the redraw throws, so
        the arrows stay as they were and the new block keeps its insertion
        tooltip. */
    method AddTailAsWritten(r: real) returns (status: Status)
      requires Valid() && NullBoxesUnique() && 0.0 <= r < 1.0
      modifies this`nodes, gfx, gfx.resources
      ensures Valid() && NullBoxesUnique()
      ensures |nodes| == |old(nodes)| + 1 && nodes[..|old(nodes)|] == old(nodes) && fresh(nodes[|old(nodes)|].mesh)
      ensures Values(nodes) == Values(old(nodes)) + [RandomBelow(r, 99)]
      ensures nodes[|old(nodes)|].mesh.hoverText == Some(InsertedHover(nodes[|old(nodes)|].val, "Tail"))
      ensures gfx.objects == old(gfx.objects) + [nodes[|old(nodes)|].mesh] && gfx.arrows == old(gfx.arrows)
      ensures status == Failed(NO_CLEAR_ARROWS)
    {
      AppendNode(r);
      status := RedrawAsWritten();
    }

    /** The block of a node being inserted at an end (`at` names which):
        a blue box labelled with the value. */
    method AddNode(val: int, at: string) returns (mesh: Mesh)
      requires Valid() && NullBoxesUnique()
      modifies gfx, gfx.resources
      ensures Valid() && NullBoxesUnique() && fresh(mesh)
      ensures mesh.hoverText == Some(InsertedHover(val, at))
      ensures gfx.objects == old(gfx.objects) + [mesh] && gfx.arrows == old(gfx.arrows)
    {
      ghost var names0 := gfx.names;
      mesh := NewMesh(gfx.resources, BOX, NODE_BOX, PRIMARY);
      gfx.AddObj(mesh, Some(Number(val)), None);
      mesh.hoverText := Some(InsertedHover(val, at));
      NameCountAppend(names0, None, NULL_NEXT);
      NameCountAppend(names0, None, NULL_PREV);
    }

    /** Takes a removed node's block away (the head's or the tail's):
        turned red, dropped and unregistered; a torn-down module stops
        before unregistering it. */
    method Retire(item: Item) returns (resumed: bool)
      requires Valid() && NullBoxesUnique()
      modifies gfx, gfx.resources, item.mesh`material
      ensures Valid() && NullBoxesUnique()
      ensures resumed <==> !base.cancelToken
      ensures item.mesh.material.color == ERROR && gfx.arrows == old(gfx.arrows)
      ensures !resumed ==> gfx.objects == old(gfx.objects)
      ensures resumed ==> gfx.objects == RemoveAt(old(gfx.objects), IndexOf(old(gfx.objects), item.mesh))
    {
      Recolor(gfx.resources, item.mesh, ERROR);
      resumed := base.Sleep();
      if !resumed {
        return;
      }
      Unregister(item.mesh);
    }

    /** Unregisters a mesh; the NULL boxes stay unique. */
    method Unregister(m: Mesh)
      requires Valid() && NullBoxesUnique()
      modifies gfx
      ensures Valid() && NullBoxesUnique()
      ensures gfx.objects == RemoveAt(old(gfx.objects), IndexOf(old(gfx.objects), m)) && gfx.arrows == old(gfx.arrows)
    {
      ghost var names0 := gfx.names;
      var k := IndexOf(gfx.objects, m);
      gfx.RemoveObj(ByMesh(m));
      if k >= 0 {
        NameCountRemoveAt(names0, k, NULL_NEXT);
        NameCountRemoveAt(names0, k, NULL_PREV);
      }
    }

    /** The head's removal up to the redraw: the head leaves the list and
        its block is retired. */
    method DetachHead() returns (resumed: bool)
      requires Valid() && NullBoxesUnique() && |nodes| > 0
      modifies this`nodes, gfx, gfx.resources, nodes[0].mesh`material
      ensures Valid() && NullBoxesUnique()
      ensures nodes == old(nodes)[1..] && old(nodes)[0].mesh.material.color == ERROR
      ensures resumed <==> !base.cancelToken
      ensures gfx.arrows == old(gfx.arrows)
      ensures !resumed ==> gfx.objects == old(gfx.objects)
      ensures resumed ==> gfx.objects == RemoveAt(old(gfx.objects), IndexOf(old(gfx.objects), old(nodes)[0].mesh))
    {
      var removed := nodes[0];
      nodes := nodes[1..];
      resumed := Retire(removed);
    }

    /** Removes the head node and redraws the rest (the corrected redraw);
        an empty list is reported and left alone. */
    method RemoveHead() returns (status: Status)
      requires Valid() && NullBoxesUnique()
      modifies this, gfx, gfx.resources, Meshes(nodes)
      ensures Valid() && NullBoxesUnique()
      ensures |old(nodes)| == 0 ==> status == Rejected(EMPTY_HEAD) && nodes == old(nodes)
                                    && gfx.objects == old(gfx.objects) && gfx.arrows == old(gfx.arrows)
      ensures |old(nodes)| > 0 ==>
                nodes == old(nodes)[1..] && old(nodes)[0].mesh.material.color == ERROR
                && status == (if base.cancelToken then Cancelled else Done)
      ensures status == Done ==> Drawn()
    {
      if |nodes| == 0 {
        return Rejected(EMPTY_HEAD);
      }
      var resumed := DetachHead();
      if !resumed {
        return Cancelled;
      }
      status := Redraw();
    }

    /** Remove Head as written: the head leaves and its block is retired,
        then the redraw throws, so the arrows stay as they were. */
    method RemoveHeadAsWritten() returns (status: Status)
      requires Valid() && NullBoxesUnique()
      modifies this`nodes, gfx, gfx.resources, Meshes(nodes)`material
      ensures Valid() && NullBoxesUnique() && gfx.arrows == old(gfx.arrows)
      ensures |old(nodes)| == 0 ==> status == Rejected(EMPTY_HEAD) && nodes == old(nodes) && gfx.objects == old(gfx.objects)
      ensures |old(nodes)| > 0 ==>
                nodes == old(nodes)[1..] && old(nodes)[0].mesh.material.color == ERROR
                && status == (if base.cancelToken then Cancelled else Failed(NO_CLEAR_ARROWS))
                && gfx.objects == if base.cancelToken then old(gfx.objects)
                                  else RemoveAt(old(gfx.objects), IndexOf(old(gfx.objects), old(nodes)[0].mesh))
    {
      if |nodes| == 0 {
        return Rejected(EMPTY_HEAD);
      }
      var resumed := DetachHead();
      if !resumed {
        return Cancelled;
      }
      status := RedrawAsWritten();
    }

    /** The tail's removal up to the redraw: a singly linked list is first
        walked up to the node before the tail, each node lit in turn; then
        the tail leaves the list and its block is retired. A torn-down
        module stops at the walk's first pause (nothing taken off) or, when
        doubly linked, at the retiring pause. */
    method DetachTail() returns (resumed: bool)
      requires Valid() && NullBoxesUnique() && |nodes| >= 2
      modifies this`nodes, gfx, gfx.resources, Meshes(nodes)`material
      ensures Valid() && NullBoxesUnique()
      ensures resumed <==> !base.cancelToken
      ensures gfx.arrows == old(gfx.arrows)
      ensures var n := |old(nodes)|;
              if doubly || resumed then nodes == old(nodes)[..n - 1] && old(nodes)[n - 1].mesh.material.color == ERROR
              else nodes == old(nodes) && old(nodes)[0].mesh.material.color == HIGHLIGHT
      ensures !resumed ==> gfx.objects == old(gfx.objects)
      ensures resumed ==> gfx.objects == RemoveAt(old(gfx.objects), IndexOf(old(gfx.objects), old(nodes)[|old(nodes)| - 1].mesh))
    {
      if !doubly {
        resumed := Traverse();
        if !resumed {
          return;
        }
      }
      var removed := nodes[|nodes| - 1];
      nodes := nodes[..|nodes| - 1];
      resumed := Retire(removed);
    }

    /** Removes the tail node and redraws the rest (the corrected redraw).
        A one-node list is handled as a head removal; a singly linked list
        is first walked up to the node before the tail. */
    method RemoveTail() returns (status: Status)
      requires Valid() && NullBoxesUnique()
      modifies this, gfx, gfx.resources, Meshes(nodes)
      ensures Valid() && NullBoxesUnique()
      ensures |old(nodes)| == 0 ==> status == Rejected(EMPTY_TAIL) && nodes == old(nodes)
                                    && gfx.objects == old(gfx.objects) && gfx.arrows == old(gfx.arrows)
      ensures |old(nodes)| > 0 ==>
                var n := |old(nodes)|;
                status == (if base.cancelToken then Cancelled else Done)
                && if n == 1 || doubly || status == Done then
                     nodes == old(nodes)[..n - 1] && old(nodes)[n - 1].mesh.material.color == ERROR
                   else
                     nodes == old(nodes) && old(nodes)[0].mesh.material.color == HIGHLIGHT
      ensures status == Done ==> Drawn()
    {
      if |nodes| == 0 {
        return Rejected(EMPTY_TAIL);
      }
      if |nodes| == 1 {
        assert old(nodes)[..0] == old(nodes)[1..];
        status := RemoveHead();
        return;
      }
      var resumed := DetachTail();
      if !resumed {
        return Cancelled;
      }
      status := Redraw();
    }

    /** Remove Tail as written: the walk and the removal as above, then the
        redraw throws, so the arrows stay as they were. */
    method RemoveTailAsWritten() returns (status: Status)
      requires Valid() && NullBoxesUnique()
      modifies this`nodes, gfx, gfx.resources, Meshes(nodes)`material
      ensures Valid() && NullBoxesUnique() && gfx.arrows == old(gfx.arrows)
      ensures |old(nodes)| == 0 ==> status == Rejected(EMPTY_TAIL) && nodes == old(nodes) && gfx.objects == old(gfx.objects)
      ensures |old(nodes)| > 0 ==>
                var n := |old(nodes)|;
                status == (if base.cancelToken then Cancelled else Failed(NO_CLEAR_ARROWS))
                && if n == 1 || doubly || !base.cancelToken then
                     nodes == old(nodes)[..n - 1] && old(nodes)[n - 1].mesh.material.color == ERROR
                   else
                     nodes == old(nodes) && old(nodes)[0].mesh.material.color == HIGHLIGHT
    {
      if |nodes| == 0 {
        return Rejected(EMPTY_TAIL);
      }
      if |nodes| == 1 {
        assert old(nodes)[..0] == old(nodes)[1..];
        status := RemoveHeadAsWritten();
        return;
      }
      var resumed := DetachTail();
      if !resumed {
        return Cancelled;
      }
      status := RedrawAsWritten();
    }

    /** The singly linked list's walk to the node before the tail: each
        node up to there is lit for a moment and turned blue again; a
        torn-down module stops at the first, leaving it lit. */
    method Traverse() returns (resumed: bool)
      requires Valid() && |nodes| >= 2
      modifies gfx.resources, Meshes(nodes)`material
      ensures Valid()
      ensures resumed <==> !base.cancelToken
      ensures resumed ==> forall k :: 0 <= k < |nodes| - 1 ==> nodes[k].mesh.material.color == PRIMARY
      ensures !resumed ==> nodes[0].mesh.material.color == HIGHLIGHT
    {
      var i := 0;
      while i < |nodes| - 1
        invariant Valid()
        invariant 0 <= i <= |nodes| - 1
        invariant i > 0 ==> !base.cancelToken
        invariant forall k :: 0 <= k < i ==> nodes[k].mesh.material.color == PRIMARY
      {
        var ok := Blink(nodes[i].mesh);
        if !ok {
          return false;
        }
        i := i + 1;
      }
      return true;
    }

    /** One step of the walk: the node is lit, and turned blue again after
        a suspension that resumes. */
    method Blink(m: Mesh) returns (resumed: bool)
      requires Valid()
      modifies gfx.resources, m`material
      ensures Valid()
      ensures resumed <==> !base.cancelToken
      ensures m.material.color == if resumed then PRIMARY else HIGHLIGHT
    {
      Recolor(gfx.resources, m, HIGHLIGHT);
      resumed := base.Sleep();
      if resumed {
        Recolor(gfx.resources, m, PRIMARY);
      }
    }

    /** Empties the list and the scene, drops every screen label, and
        redraws the empty list (the corrected redraw): one NULL box and the
        two marker labels. */
    method ResetList() returns (status: Status)
      requires Valid()
      modifies this, gfx, gfx.resources, gfx.hoveredObject
      ensures Valid() && NullBoxesUnique()
      ensures nodes == [] && status == Done && Drawn()
      ensures labelElements.Keys == {"head", "tail"} && gfx.arrows == []
    {
      ClearList();
      status := Redraw();
    }

    /** Reset as written: everything is cleared, then the redraw throws,
        so no NULL box and no marker label is drawn. */
    method ResetListAsWritten() returns (status: Status)
      requires Valid()
      modifies this, gfx, gfx.hoveredObject
      ensures Valid() && NullBoxesUnique() && status == Failed(NO_CLEAR_ARROWS)
      ensures nodes == [] && labelElements == map[] && gfx.objects == [] && gfx.arrows == []
    {
      ClearList();
      status := RedrawAsWritten();
    }

    /** The clearing part of a reset: the scene, every screen label, the
        named arrows and NULL boxes, and the list itself. */
    method ClearList()
      requires Valid()
      modifies this, gfx, gfx.hoveredObject
      ensures Valid() && NullBoxesUnique()
      ensures nodes == [] && labelElements == map[] && gfx.objects == [] && gfx.arrows == []
    {
      gfx.Clear();
      while labelElements != map[]
        invariant Valid() && gfx.objects == [] && gfx.arrows == []
        decreases |labelElements.Keys|
      {
        var id :| id in labelElements;
        RemoveHtmlLabel(id);
      }
      gfx.ClearNamedArrows(END_ARROWS + NULL_ARROWS);
      gfx.RemoveObj(ByName(NULL_NEXT));
      gfx.RemoveObj(ByName(NULL_PREV));
      nodes := [];
    }
  }
}
