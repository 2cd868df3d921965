/** The scene registry of the graphics engine: the meshes on screen, the
    screen labels attached to them, the arrows, and the mesh under the
    mouse pointer with its tooltip. Drawing, cameras, positions and
    picking are not modelled: a pick is an input. */
module Graphics {
  import opened Common
  import opened Resources

  /** What a module writes into a label or a tooltip line: a number or a
      piece of text, a number followed by text (`3 (Current Top)`), a call
      with its argument (`fact(3)`), or text followed by another caption
      (`Returning 6`). */
  datatype Caption =
    | Number(n: int)
    | Words(s: string)
    | NumberWords(m: int, t: string)
    | Call(fn: string, arg: int)
    | Then(before: string, after: Caption)

  /** One line of a tooltip: `key: value`, or a bare tag such as `HEAD`. */
  datatype HoverLine = Field(key: string, value: Caption) | Tag(text: string)

  /** The lines of a tooltip, in order. */
  type Hover = seq<HoverLine>

  /** A mesh and the bookkeeping the engine and the modules keep on it. */
  class Mesh {
    const geometry: Geometry
    var material: Material
    /** The material recorded when the mesh was registered or last put under
        the pointer; what the hover highlight is undone to. */
    var originalMaterial: Option<Material>
    var hoverText: Option<Hover>

    constructor (g: Geometry, m: Material)
      ensures geometry == g && material == m
      ensures originalMaterial == None && hoverText == None
    {
      geometry, material, originalMaterial, hoverText := g, m, None, None;
    }
  }

  /** A mesh built the way the modules build theirs: a geometry and an
      opaque material fetched from the cache, in that order. */
  method NewMesh(cache: ResourceCache, kind: string, params: seq<string>, color: nat) returns (m: Mesh)
    requires cache.Valid()
    modifies cache
    ensures cache.Valid() && fresh(m)
    ensures var (c1, g) := GeometryStep(old(cache.State()), kind, params);
            var (c2, mat) := MaterialStep(c1, color, false);
            cache.State() == c2 && m.geometry == g && m.material == mat
    ensures m.material.color == color
    ensures m.originalMaterial == None && m.hoverText == None
  {
    var g := cache.GetGeometry(kind, params);
    var mat := cache.GetMaterial(color, false);
    m := new Mesh(g, mat);
  }

  /** Gives a mesh the opaque material of a colour, fetched from the cache. */
  method Recolor(cache: ResourceCache, m: Mesh, color: nat)
    requires cache.Valid()
    modifies cache, m`material
    ensures cache.Valid()
    ensures (cache.State(), m.material) == MaterialStep(old(cache.State()), color, false)
    ensures m.material.color == color
  {
    m.material := cache.GetMaterial(color, false);
  }

  /** A value of a data structure and the mesh that draws it. */
  datatype Item = Item(val: int, mesh: Mesh)

  /** The values of a run of items, in order. */
  function Values(items: seq<Item>): (vs: seq<int>)
    ensures |vs| == |items|
    ensures forall i :: 0 <= i < |items| ==> vs[i] == items[i].val
  {
    if items == [] then [] else [items[0].val] + Values(items[1..])
  }

  /** The meshes of a run of items, in order. */
  function MeshList(items: seq<Item>): (ms: seq<Mesh>)
    ensures |ms| == |items|
    ensures forall i :: 0 <= i < |items| ==> ms[i] == items[i].mesh
  {
    if items == [] then [] else [items[0].mesh] + MeshList(items[1..])
  }

  /** No two items share a mesh. */
  predicate DistinctMeshes(items: seq<Item>) {
    forall a, b :: 0 <= a < b < |items| ==> items[a].mesh != items[b].mesh
  }

  /** The meshes of a run of items. */
  function Meshes(items: seq<Item>): set<Mesh> {
    set i | 0 <= i < |items| :: items[i].mesh
  }

  /** A screen label and the mesh it follows. */
  datatype Label = Label(mesh: Mesh, text: Caption)

  /** An arrow and the name it may carry. */
  datatype Arrow = Arrow(color: nat, name: Option<string>)

  /** The argument of a removal: nothing (a falsy value), a name, or a mesh. */
  datatype RemoveTarget = NoTarget | ByName(name: string) | ByMesh(mesh: Mesh)

  // ---------------------------------------------------------------
  // Searches and filters on the registry lists
  // ---------------------------------------------------------------

  /** The first index holding `x`, or -1. */
  function IndexOf<T(==)>(s: seq<T>, x: T): (i: int)
    ensures -1 <= i < |s|
    ensures i >= 0 ==> s[i] == x
    ensures forall k :: 0 <= k < |s| && (i < 0 || k < i) ==> s[k] != x
  {
    if s == [] then -1
    else if s[0] == x then 0
    else
      var j := IndexOf(s[1..], x);
      if j < 0 then -1 else j + 1
  }

  /** The first index whose label follows mesh `m`, or -1. */
  function LabelIndex(labels: seq<Label>, m: Mesh): (i: int)
    ensures -1 <= i < |labels|
    ensures i >= 0 ==> labels[i].mesh == m
    ensures forall k :: 0 <= k < |labels| && (i < 0 || k < i) ==> labels[k].mesh != m
  {
    if labels == [] then -1
    else if labels[0].mesh == m then 0
    else
      var j := LabelIndex(labels[1..], m);
      if j < 0 then -1 else j + 1
  }

  /** The first registry position named `n`, or -1. */
  function NamedIndex(names: seq<Option<string>>, n: string): (i: int)
    ensures -1 <= i < |names|
    ensures i >= 0 ==> names[i] == Some(n)
    ensures forall k :: 0 <= k < |names| && (i < 0 || k < i) ==> names[k] != Some(n)
  {
    if names == [] then -1
    else if names[0] == Some(n) then 0
    else
      var j := NamedIndex(names[1..], n);
      if j < 0 then -1 else j + 1
  }

  /** The list without its element at index `i`, when there is one. */
  function RemoveAt<T>(s: seq<T>, i: int): seq<T> {
    if 0 <= i < |s| then s[..i] + s[i + 1..] else s
  }

  /** Splicing out one element removes exactly that element: the others keep
      their relative order and the multiset loses one copy of it. */
  lemma RemoveAtKeepsOthers<T>(s: seq<T>, i: int)
    requires 0 <= i < |s|
    ensures |RemoveAt(s, i)| == |s| - 1
    ensures forall k :: 0 <= k < i ==> RemoveAt(s, i)[k] == s[k]
    ensures forall k :: i <= k < |s| - 1 ==> RemoveAt(s, i)[k] == s[k + 1]
    ensures multiset(RemoveAt(s, i)) + multiset{s[i]} == multiset(s)
  {
    assert s == s[..i] + [s[i]] + s[i + 1..];
  }

  /** Registering a mesh that was not registered and then removing it gives
      back the registry lists it was added to. */
  lemma AddThenRemove(objs: seq<Mesh>, labels: seq<Label>, m: Mesh, added: seq<Label>)
    requires m !in objs
    requires forall k :: 0 <= k < |labels| ==> labels[k].mesh != m
    requires added == [] || (|added| == 1 && added[0].mesh == m)
    ensures RemoveAt(objs + [m], IndexOf(objs + [m], m)) == objs
    ensures RemoveAt(labels + added, LabelIndex(labels + added, m)) == labels
  {
    var i := IndexOf(objs + [m], m);
    assert (objs + [m])[|objs|] == m;
    assert i == |objs|;
    assert (objs + [m])[..|objs|] == objs;
    var j := LabelIndex(labels + added, m);
    if added != [] {
      assert (labels + added)[|labels|].mesh == m;
      assert j == |labels|;
      assert (labels + added)[..|labels|] == labels;
    } else {
      assert labels + added == labels;
    }
  }

  /** An arrow `clearNamedArrows` drops: it carries one of the names. */
  predicate Dropped(a: Arrow, names: seq<string>) {
    a.name.Some? && a.name.value in names
  }

  /** The arrows kept by `clearNamedArrows`, in their order. */
  function KeepArrows(arrows: seq<Arrow>, names: seq<string>): (r: seq<Arrow>)
    ensures |r| <= |arrows|
    ensures forall a :: a in r <==> a in arrows && !Dropped(a, names)
  {
    if arrows == [] then []
    else (if Dropped(arrows[0], names) then [] else [arrows[0]]) + KeepArrows(arrows[1..], names)
  }

  /** Filtering works list piece by list piece, so the kept arrows stay in
      their relative order. */
  lemma {:induction false} KeepArrowsAppend(a: seq<Arrow>, b: seq<Arrow>, names: seq<string>)
    ensures KeepArrows(a + b, names) == KeepArrows(a, names) + KeepArrows(b, names)
  {
    if a == [] {
      assert a + b == b;
    } else {
      assert (a + b)[0] == a[0] && (a + b)[1..] == a[1..] + b;
      KeepArrowsAppend(a[1..], b, names);
    }
  }

  /** Filtering twice by the same names removes nothing more. */
  lemma {:induction false} KeepArrowsIdempotent(arrows: seq<Arrow>, names: seq<string>)
    ensures KeepArrows(KeepArrows(arrows, names), names) == KeepArrows(arrows, names)
  {
    if arrows != [] {
      KeepArrowsIdempotent(arrows[1..], names);
      if !Dropped(arrows[0], names) {
        var rest := KeepArrows(arrows[1..], names);
        var t := [arrows[0]] + rest;
        assert t[0] == arrows[0] && t[1..] == rest;
        assert KeepArrows(t, names) == [arrows[0]] + KeepArrows(rest, names);
      } else {
        var rest := KeepArrows(arrows[1..], names);
        assert KeepArrows(arrows, names) == [] + rest;
        assert [] + rest == rest;
      }
    }
  }

  /** Filtering keeps every arrow whose name is not listed, and exactly as
      many times: dropping per name is the only change. */
  lemma {:induction false} KeepArrowsCount(arrows: seq<Arrow>, names: seq<string>, x: Arrow)
    ensures multiset(KeepArrows(arrows, names))[x] == if Dropped(x, names) then 0 else multiset(arrows)[x]
  {
    if arrows != [] {
      KeepArrowsCount(arrows[1..], names, x);
      assert arrows == [arrows[0]] + arrows[1..];
    }
  }

  /** Filtering by names no arrow carries keeps the whole list. */
  lemma {:induction false} KeepArrowsKeepsAll(arrows: seq<Arrow>, names: seq<string>)
    requires forall k :: 0 <= k < |arrows| ==> !Dropped(arrows[k], names)
    ensures KeepArrows(arrows, names) == arrows
  {
    if arrows != [] {
      KeepArrowsKeepsAll(arrows[1..], names);
      assert [arrows[0]] + arrows[1..] == arrows;
    }
  }

  /** How many registry positions carry the name `n`. */
  function NameCount(names: seq<Option<string>>, n: string): nat {
    if names == [] then 0
    else (if names[0] == Some(n) then 1 else 0) + NameCount(names[1..], n)
  }

  /** No position carries the name exactly when the name lookup finds none. */
  lemma {:induction false} NameCountZero(names: seq<Option<string>>, n: string)
    ensures NameCount(names, n) == 0 <==> NamedIndex(names, n) < 0
  {
    if names != [] {
      NameCountZero(names[1..], n);
    }
  }

  /** Registering one more position counts its name once more. */
  lemma {:induction false} NameCountAppend(names: seq<Option<string>>, x: Option<string>, n: string)
    ensures NameCount(names + [x], n) == NameCount(names, n) + (if x == Some(n) then 1 else 0)
  {
    if names == [] {
      assert (names + [x])[1..] == [];
    } else {
      assert (names + [x])[1..] == names[1..] + [x];
      NameCountAppend(names[1..], x, n);
    }
  }

  /** Splicing out one position counts its name once less. */
  lemma {:induction false} NameCountRemoveAt(names: seq<Option<string>>, i: int, n: string)
    requires 0 <= i < |names|
    ensures NameCount(RemoveAt(names, i), n) == NameCount(names, n) - (if names[i] == Some(n) then 1 else 0)
  {
    if i == 0 {
      assert RemoveAt(names, 0) == names[1..];
    } else {
      assert RemoveAt(names, i)[1..] == RemoveAt(names[1..], i - 1);
      NameCountRemoveAt(names[1..], i - 1, n);
    }
  }

  // ---------------------------------------------------------------
  // The engine
  // ---------------------------------------------------------------

  class GraphicsEngine {
    const resources: ResourceCache
    /** Whether the page has the container screen labels are put in. */
    const labelsLayer: bool
    var objects: seq<Mesh>
    /** The name each registered mesh was given, position by position. */
    var names: seq<Option<string>>
    var labels: seq<Label>
    var arrows: seq<Arrow>
    var hoveredObject: Mesh?
    /** The tooltip: its content while shown, `None` while hidden. */
    var tooltip: Option<Hover>

    /** The hovered mesh is one of the registered meshes, and the tooltip
        only shows while a mesh is hovered. */
    ghost predicate Valid()
      reads this, resources
    {
      resources.Valid() && |names| == |objects|
      && (hoveredObject != null ==> hoveredObject in objects)
      && (tooltip.Some? ==> hoveredObject != null)
    }

    constructor (cache: ResourceCache, hasLabelsLayer: bool)
      requires cache.Valid()
      ensures Valid() && resources == cache && labelsLayer == hasLabelsLayer
      ensures objects == [] && names == [] && labels == [] && arrows == [] && hoveredObject == null && tooltip == None
    {
      resources, labelsLayer := cache, hasLabelsLayer;
      objects, names, labels, arrows, hoveredObject, tooltip := [], [], [], [], null, None;
    }

    /** Empties the registry, undoing the highlight of the hovered mesh when
        one was recorded, and hides the tooltip. The new state does not
        depend on the old one, so clearing twice is clearing once. */
    method Clear()
      requires Valid()
      modifies this, hoveredObject
      ensures Valid()
      ensures objects == [] && names == [] && labels == [] && arrows == []
      ensures hoveredObject == null && tooltip == None
      ensures var h := old(hoveredObject);
              h != null ==>
                h.material == (if old(h.originalMaterial).Some? then old(h.originalMaterial).value else old(h.material))
                && h.originalMaterial == old(h.originalMaterial) && h.hoverText == old(h.hoverText)
    {
      objects := [];
      names := [];
      arrows := [];
      labels := [];
      if hoveredObject != null && hoveredObject.originalMaterial.Some? {
        hoveredObject.material := hoveredObject.originalMaterial.value;
      }
      hoveredObject := null;
      tooltip := None;
    }

    /** Unregisters one mesh: its first occurrence in `objects` and its
        first label go; if it was hovered, nothing is hovered any more and
        the tooltip hides (its material is left as it is). */
    method RemoveSingleObj(m: Mesh)
      requires Valid()
      modifies this
      ensures Valid()
      ensures objects == RemoveAt(old(objects), IndexOf(old(objects), m))
      ensures names == RemoveAt(old(names), IndexOf(old(objects), m))
      ensures labels == RemoveAt(old(labels), LabelIndex(old(labels), m))
      ensures arrows == old(arrows)
      ensures if old(hoveredObject) == m then hoveredObject == null && tooltip == None
              else hoveredObject == old(hoveredObject) && tooltip == old(tooltip)
    {
      RemoveEntry(IndexOf(objects, m), m);
    }

    /** Unregisters mesh `m` found at position `i` of the registry (-1:
        not registered): that position, and the mesh's first label, go. */
    method RemoveEntry(i: int, m: Mesh)
      requires Valid() && -1 <= i < |objects| && (i >= 0 ==> objects[i] == m)
      modifies this
      ensures Valid()
      ensures objects == RemoveAt(old(objects), i) && names == RemoveAt(old(names), i)
      ensures labels == RemoveAt(old(labels), LabelIndex(old(labels), m))
      ensures arrows == old(arrows)
      ensures if old(hoveredObject) == m then hoveredObject == null && tooltip == None
              else hoveredObject == old(hoveredObject) && tooltip == old(tooltip)
    {
      if i > -1 {
        if hoveredObject != null && hoveredObject != m {
          assert hoveredObject in objects[..i] + objects[i + 1..] by {
            var k := IndexOf(objects, hoveredObject);
            assert objects[k] == hoveredObject;
            if k < i {
              assert (objects[..i] + objects[i + 1..])[k] == hoveredObject;
            } else {
              assert (objects[..i] + objects[i + 1..])[k - 1] == hoveredObject;
            }
          }
        }
        objects := objects[..i] + objects[i + 1..];
        names := names[..i] + names[i + 1..];
      }
      var labelIndex := LabelIndex(labels, m);
      if labelIndex > -1 {
        labels := labels[..labelIndex] + labels[labelIndex + 1..];
      }
      if hoveredObject == m {
        hoveredObject := null;
        tooltip := None;
      }
    }

    /** Removes a mesh given directly, or the first mesh with the given
        name; a falsy argument (nothing, or the empty name) and a name no
        mesh carries change nothing. (A name belongs to its mesh, so the
        first position with the name is that mesh's first occurrence.) */
    method RemoveObj(target: RemoveTarget)
      requires Valid()
      modifies this
      ensures Valid()
      ensures arrows == old(arrows)
      ensures match target
        case NoTarget =>
          objects == old(objects) && names == old(names) && labels == old(labels)
          && hoveredObject == old(hoveredObject) && tooltip == old(tooltip)
        case ByName(n) =>
          var k := NamedIndex(old(names), n);
          if n == "" || k < 0 then
            objects == old(objects) && names == old(names) && labels == old(labels)
            && hoveredObject == old(hoveredObject) && tooltip == old(tooltip)
          else
            var m := old(objects)[k];
            objects == RemoveAt(old(objects), k) && names == RemoveAt(old(names), k)
            && labels == RemoveAt(old(labels), LabelIndex(old(labels), m))
            && (if old(hoveredObject) == m then hoveredObject == null && tooltip == None
                else hoveredObject == old(hoveredObject) && tooltip == old(tooltip))
        case ByMesh(m) =>
          objects == RemoveAt(old(objects), IndexOf(old(objects), m))
          && names == RemoveAt(old(names), IndexOf(old(objects), m))
          && labels == RemoveAt(old(labels), LabelIndex(old(labels), m))
          && (if old(hoveredObject) == m then hoveredObject == null && tooltip == None
              else hoveredObject == old(hoveredObject) && tooltip == old(tooltip))
    {
      match target
      case NoTarget =>
      case ByName(n) =>
        if n != "" {
          var k := NamedIndex(names, n);
          if k >= 0 {
            RemoveEntry(k, objects[k]);
          }
        }
      case ByMesh(m) =>
        RemoveSingleObj(m);
    }

    /** Registers a mesh, recording its current material as the one to
        undo a highlight to, under the name given (none, when no name or
        the empty one is given); attaches a screen label exactly when a
        text is given and the page has a labels layer. */
    method AddObj(mesh: Mesh, labelText: Option<Caption>, name: Option<string>)
      requires Valid()
      modifies this, mesh`originalMaterial
      ensures Valid()
      ensures objects == old(objects) + [mesh]
      ensures names == old(names) + [if name.Some? && name.value != "" then name else None]
      ensures mesh.originalMaterial == Some(old(mesh.material)) && mesh.material == old(mesh.material)
      ensures mesh.hoverText == old(mesh.hoverText)
      ensures labels == (if labelText.Some? && labelsLayer then old(labels) + [Label(mesh, labelText.value)]
                         else old(labels))
      ensures arrows == old(arrows) && hoveredObject == old(hoveredObject) && tooltip == old(tooltip)
    {
      objects := objects + [mesh];
      mesh.originalMaterial := Some(mesh.material);
      if name.Some? && name.value != "" {
        names := names + [name];
      } else {
        names := names + [None];
      }
      if labelText.Some? {
        if labelsLayer {
          labels := labels + [Label(mesh, labelText.value)];
        }
      }
    }

    /** Appends exactly one arrow, named when a (non-empty) name is given. */
    method AddArrow(color: nat, name: Option<string>)
      requires Valid()
      modifies this
      ensures Valid()
      ensures arrows == old(arrows) + [Arrow(color, if name.Some? && name.value != "" then name else None)]
      ensures objects == old(objects) && names == old(names) && labels == old(labels)
      ensures hoveredObject == old(hoveredObject) && tooltip == old(tooltip)
    {
      var arrowName: Option<string> := None;
      if name.Some? && name.value != "" {
        arrowName := name;
      }
      arrows := arrows + [Arrow(color, arrowName)];
    }

    /** Drops the arrows carrying one of the names, keeping the rest in
        order. */
    method ClearNamedArrows(arrowNames: seq<string>)
      requires Valid()
      modifies this
      ensures Valid()
      ensures arrows == KeepArrows(old(arrows), arrowNames)
      ensures objects == old(objects) && names == old(names) && labels == old(labels)
      ensures hoveredObject == old(hoveredObject) && tooltip == old(tooltip)
    {
      arrows := KeepArrows(arrows, arrowNames);
    }

    /** The hover step of one frame, given the registered mesh under the
        pointer (or none). A new pick undoes the highlight of the previous
        mesh, records the picked mesh's material, highlights it and shows
        its tooltip if it has one; the same pick changes nothing; no pick
        undoes the highlight and hides the tooltip. */
    method RenderHover(pick: Mesh?)
      requires Valid()
      requires pick != null ==> pick in objects
      modifies this, resources, hoveredObject, pick
      ensures Valid()
      ensures hoveredObject == pick
      ensures objects == old(objects) && names == old(names) && labels == old(labels) && arrows == old(arrows)
      ensures var h := old(hoveredObject);
              h != null && h != pick ==>
                h.material == (if old(h.originalMaterial).Some? then old(h.originalMaterial).value else old(h.material))
                && h.originalMaterial == old(h.originalMaterial)
      ensures pick != null && pick != old(hoveredObject) ==>
                var (cache, highlight) := MaterialStep(old(resources.State()), HIGHLIGHT, false);
                resources.State() == cache
                && pick.originalMaterial == Some(old(pick.material)) && pick.material == highlight
                && tooltip == (if pick.hoverText.Some? then pick.hoverText else old(tooltip))
      ensures pick == old(hoveredObject) && pick != null ==>
                resources.State() == old(resources.State()) && tooltip == old(tooltip)
                && pick.material == old(pick.material) && pick.originalMaterial == old(pick.originalMaterial)
      ensures pick == null ==> tooltip == None && resources.State() == old(resources.State())
    {
      if pick != null {
        if hoveredObject != pick {
          if hoveredObject != null && hoveredObject.originalMaterial.Some? {
            hoveredObject.material := hoveredObject.originalMaterial.value;
          }
          hoveredObject := pick;
          pick.originalMaterial := Some(pick.material);
          var highlight := resources.GetMaterial(HIGHLIGHT, false);
          pick.material := highlight;
          if pick.hoverText.Some? {
            tooltip := pick.hoverText;
          }
        }
      } else {
        if hoveredObject != null && hoveredObject.originalMaterial.Some? {
          hoveredObject.material := hoveredObject.originalMaterial.value;
        }
        hoveredObject := null;
        tooltip := None;
      }
    }
  }
}
