/** The array demonstration: a row of at most eight values that grows and
    shrinks at its end, and a reset that builds a row of a given size. */
module Arrays {
  import opened Common
  import opened Resources
  import opened Graphics
  import opened Lifecycle

  const MAX_ARRAY_SIZE: nat := 8
  /** The shape of every block. */
  const BOX := "box"
  const BLOCK_BOX: seq<string> := ["1.2", "1", "1.2"]

  const FULL := Notice(Warning, "Array is full. Cannot add more elements.")
  const EMPTY := Notice(Warning, "Array is already empty! Cannot remove.")

  /** What the `size` parameter of the reset holds: a number, or a value
      that converts to no number at all (so that `i < size` never holds). */
  datatype SizeArg = Count(n: int) | NotANumber

  /** How many times the reset's loop `for (i = 0; i < size; i++)` runs. */
  function LoopBound(size: SizeArg): (k: nat)
    ensures size.Count? && size.n >= 0 ==> k == size.n
    ensures size.NotANumber? || size.n <= 0 ==> k == 0
  {
    match size
    case Count(n) => if n > 0 then n else 0
    case NotANumber => 0
  }

  /** The value of a size text of plain decimal digits, the form the
      buttons carry, as a comparison with a number converts it; any other
      text here converts to no number. */
  function ParseDigits(s: string): (v: Option<nat>)
    ensures v.Some? <==> forall k :: 0 <= k < |s| ==> '0' <= s[k] <= '9'
  {
    if s == [] then Some(0)
    else
      var rest := ParseDigits(s[..|s| - 1]);
      var c := s[|s| - 1];
      if '0' <= c <= '9' && rest.Some? then Some(rest.value * 10 + (c as int - '0' as int))
      else None
  }

  /** The size the reset receives from the action bar as written: the
      dispatcher passes the clicked button first and the button's size
      text second, and the reset takes its first argument as the size. */
  function ResetSizeAsWritten(sizeText: string): SizeArg {
    NotANumber
  }

  /** The size the reset button evidently means: its size text. */
  function ResetSize(sizeText: string): SizeArg {
    match ParseDigits(sizeText)
    case Some(v) => Count(v)
    case None => NotANumber
  }

  /** As written, the reset button (size text "5") builds an empty array,
      whatever text it carries. */
  lemma ResetButtonBuildsNothing(sizeText: string)
    ensures LoopBound(ResetSizeAsWritten(sizeText)) == 0
  {
  }

  /** Read as intended, the button's size text decides the size: a text of
      digits builds that many elements, and "5" builds five. */
  lemma {:induction false} ResetButtonBuildsItsSize(sizeText: string, n: nat)
    requires sizeText == DecimalText(n)
    ensures LoopBound(ResetSize(sizeText)) == n
  {
    ParseDecimalText(n);
  }

  lemma {:induction false} ParseDecimalText(n: nat)
    ensures ParseDigits(DecimalText(n)) == Some(n)
  {
    var s := DecimalText(n);
    if n < 10 {
      assert s[..|s| - 1] == [];
    } else {
      assert s[..|s| - 1] == DecimalText(n / 10);
      ParseDecimalText(n / 10);
    }
  }

  /** The tooltip of the block at index `i`. */
  function IndexHover(i: int, val: int): Hover {
    [Field("Index", Number(i)), Field("Value", Number(val))]
  }

  class ArrayModule {
    const base: ModuleBase
    const gfx: GraphicsEngine
    var cells: seq<Item>

    ghost predicate Valid()
      reads this, base, gfx, gfx.resources
    {
      base.gfx == gfx && gfx.Valid()
    }

    /** A fresh module starts with an array of five values. */
    constructor (engine: GraphicsEngine, draws: seq<real>)
      requires engine.Valid()
      requires |draws| == 5 && forall i :: 0 <= i < 5 ==> 0.0 <= draws[i] < 1.0
      modifies engine, engine.hoveredObject, engine.resources
      ensures Valid() && gfx == engine && fresh(base) && !base.cancelToken
      ensures |cells| == 5
      ensures forall i :: 0 <= i < 5 ==> cells[i].val == RandomBelow(draws[i], 99)
      ensures gfx.objects == MeshList(cells)
    {
      base := new ModuleBase(engine);
      gfx := engine;
      cells := [];
      new;
      GenerateArray(Count(5), draws);
    }

    /** Clears the scene and builds a fresh row of as many values as the
        loop bound allows, one block (labelled, with an index tooltip) per
        value. */
    method GenerateArray(size: SizeArg, draws: seq<real>)
      requires Valid()
      requires |draws| == LoopBound(size) && forall i :: 0 <= i < |draws| ==> 0.0 <= draws[i] < 1.0
      modifies this, gfx, gfx.resources, gfx.hoveredObject
      ensures Valid()
      ensures |cells| == LoopBound(size)
      ensures forall i :: 0 <= i < |cells| ==>
                cells[i].val == RandomBelow(draws[i], 99) && fresh(cells[i].mesh)
                && cells[i].mesh.hoverText == Some(IndexHover(i, cells[i].val))
      ensures gfx.objects == MeshList(cells) && gfx.arrows == [] && gfx.hoveredObject == null
    {
      gfx.Clear();
      var built: seq<Item> := [];
      var i := 0;
      while i < LoopBound(size)
        invariant Valid()
        invariant 0 <= i <= LoopBound(size) && |built| == i
        invariant forall k :: 0 <= k < i ==> built[k].val == RandomBelow(draws[k], 99)
        invariant forall k :: 0 <= k < i ==> fresh(built[k].mesh)
        invariant forall k :: 0 <= k < i ==> built[k].mesh.hoverText == Some(IndexHover(k, built[k].val))
        invariant |gfx.objects| == i && forall k :: 0 <= k < i ==> gfx.objects[k] == built[k].mesh
        invariant gfx.arrows == [] && gfx.hoveredObject == null
      {
        var val := RandomBelow(draws[i], 99);
        var mesh := PlaceBlock(i, val, PRIMARY);
        built := built + [Item(val, mesh)];
        i := i + 1;
      }
      cells := built;
      assert gfx.objects == MeshList(cells);
    }

    /** One block of the row: a box of the given colour for the value at
        `index`, with its index tooltip, registered with the value as its
        label. */
    method PlaceBlock(index: int, val: int, color: nat) returns (mesh: Mesh)
      requires Valid()
      modifies gfx, gfx.resources
      ensures Valid() && fresh(mesh)
      ensures mesh.hoverText == Some(IndexHover(index, val)) && mesh.material.color == color
      ensures gfx.objects == old(gfx.objects) + [mesh]
      ensures gfx.arrows == old(gfx.arrows) && gfx.hoveredObject == old(gfx.hoveredObject)
    {
      mesh := NewMesh(gfx.resources, BOX, BLOCK_BOX, color);
      mesh.hoverText := Some(IndexHover(index, val));
      gfx.AddObj(mesh, Some(Number(val)), None);
    }

    /** Appends `floor(r * 99)` at the next index unless the row is full;
        the new block is shown green for a moment, then blue. */
    method AddValue(r: real) returns (status: Status)
      requires Valid() && 0.0 <= r < 1.0
      modifies this, gfx, gfx.resources
      ensures Valid()
      ensures gfx.arrows == old(gfx.arrows) && gfx.hoveredObject == old(gfx.hoveredObject)
      ensures |cells| <= if |old(cells)| > MAX_ARRAY_SIZE then |old(cells)| else MAX_ARRAY_SIZE
      ensures var n := |old(cells)|;
              if n >= MAX_ARRAY_SIZE then
                status == Rejected(FULL) && cells == old(cells)
                && gfx.objects == old(gfx.objects) && gfx.labels == old(gfx.labels)
              else
                |cells| == n + 1 && cells[..n] == old(cells)
                && cells[n].val == RandomBelow(r, 99) && fresh(cells[n].mesh)
                && cells[n].mesh.hoverText == Some(IndexHover(n, cells[n].val))
                && gfx.objects == old(gfx.objects) + [cells[n].mesh]
                && status == (if base.cancelToken then Cancelled else Done)
                && cells[n].mesh.material.color == (if base.cancelToken then SUCCESS else PRIMARY)
    {
      if |cells| >= MAX_ARRAY_SIZE {
        return Rejected(FULL);
      }
      var val := RandomBelow(r, 99);
      var nextIndex := |cells|;
      var mesh := PlaceBlock(nextIndex, val, SUCCESS);
      cells := cells + [Item(val, mesh)];
      var ok := base.Sleep();
      if !ok {
        return Cancelled;
      }
      var blue := gfx.resources.GetMaterial(PRIMARY, false);
      mesh.material := blue;
      return Done;
    }

    /** Removes the last value and unregisters its block; an empty row is
        reported and left alone. */
    method RemoveValue() returns (status: Status)
      requires Valid()
      modifies this, gfx
      ensures Valid()
      ensures gfx.arrows == old(gfx.arrows)
      ensures var n := |old(cells)|;
              if n == 0 then
                status == Rejected(EMPTY) && cells == old(cells)
                && gfx.objects == old(gfx.objects) && gfx.labels == old(gfx.labels)
              else
                var last := old(cells)[n - 1].mesh;
                status == Done && cells == old(cells)[..n - 1]
                && gfx.objects == RemoveAt(old(gfx.objects), IndexOf(old(gfx.objects), last))
                && gfx.labels == RemoveAt(old(gfx.labels), LabelIndex(old(gfx.labels), last))
    {
      if |cells| == 0 {
        return Rejected(EMPTY);
      }
      var removed := cells[|cells| - 1];
      cells := cells[..|cells| - 1];
      gfx.RemoveObj(ByMesh(removed.mesh));
      return Done;
    }

    /** The reset button of the action bar, as dispatched: the loop bound
        becomes no number and the row comes out empty. */
    method ResetFromActionBarAsWritten(sizeText: string)
      requires Valid()
      modifies this, gfx, gfx.resources, gfx.hoveredObject
      ensures Valid()
      ensures cells == [] && gfx.objects == [] && gfx.arrows == []
    {
      GenerateArray(ResetSizeAsWritten(sizeText), []);
    }

    /** The reset button with its size text used as the size. */
    method ResetFromActionBar(sizeText: string, draws: seq<real>)
      requires Valid()
      requires |draws| == LoopBound(ResetSize(sizeText)) && forall i :: 0 <= i < |draws| ==> 0.0 <= draws[i] < 1.0
      modifies this, gfx, gfx.resources, gfx.hoveredObject
      ensures Valid()
      ensures |cells| == LoopBound(ResetSize(sizeText))
      ensures forall i :: 0 <= i < |cells| ==> cells[i].val == RandomBelow(draws[i], 99)
      ensures gfx.objects == MeshList(cells)
    {
      GenerateArray(ResetSize(sizeText), draws);
    }
  }
}
