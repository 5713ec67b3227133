/**
 * The page script's build step: the group that holds the cells, the click
 * handler that fills it with a battery pack, and the reset of the dimension
 * inputs when the page loads.
 */
module Script {
  import opened Grid

  /**
   * What parseInt makes of one dimension input: an integer, or NaN when the
   * text does not start with a number. The integer is unbounded; parseInt's
   * Infinity and the doubles above 2^53 are not modelled.
   */
  datatype Dim = Int(n: int) | NaN

  /** The loop condition `i < dim`; any comparison with NaN is false. */
  predicate Below(i: int, d: Dim)
  {
    d.Int? && i < d.n
  }

  /** The dimension is a number of at least 1. */
  predicate Positive(d: Dim)
  {
    d.Int? && 0 < d.n
  }

  /** How many times a loop `for (i = 0; i < d; i++)` runs. */
  function Count(d: Dim): (r: nat)
    ensures forall i :: 0 <= i ==> (Below(i, d) <==> i < r)
  {
    if Positive(d) then d.n else 0
  }

  /** A build appends no cell exactly when some dimension is NaN, zero or negative. */
  lemma BuildEmptyIff(xDim: Dim, yDim: Dim, zDim: Dim)
    ensures Pack(Count(xDim), Count(yDim), Count(zDim)) == [] <==>
      !(Positive(xDim) && Positive(yDim) && Positive(zDim))
  {
    PackEmptyIff(Count(xDim), Count(yDim), Count(zDim));
  }

  /**
   * What one click does to a group that held `before`: it grows by exactly
   * Count(xDim) * Count(yDim) * Count(zDim) cells, and it is left as it was
   * when some dimension is NaN, zero or negative.
   */
  lemma ClickAppends(before: seq<Cell>, xDim: Dim, yDim: Dim, zDim: Dim)
    ensures |before + Pack(Count(xDim), Count(yDim), Count(zDim))| ==
      |before| + Count(xDim) * (Count(yDim) * Count(zDim))
    ensures !(Positive(xDim) && Positive(yDim) && Positive(zDim)) ==>
      before + Pack(Count(xDim), Count(yDim), Count(zDim)) == before
  {
    PackLength(Count(xDim), Count(yDim), Count(zDim));
    BuildEmptyIff(xDim, yDim, zDim);
  }

  lemma AppendAssoc(a: seq<Cell>, b: seq<Cell>, c: seq<Cell>)
    ensures a + b + c == a + (b + c)
  {
  }

  /** The group the cells are added to; it lives as long as the page and is never emptied. */
  class CellGroup {
    var cells: seq<Cell>

    constructor ()
      ensures cells == []
    {
      cells := [];
    }

    /** Adds one cell as the group's last child. */
    method Add(c: Cell)
      modifies this
      ensures cells == old(cells) + [c]
    {
      cells := cells + [c];
    }
  }

  /**
   * The click handler: appends one cell per grid index (x, y, z), x outermost
   * and z innermost, each placed at (x * 1.2, y * 1.2, z * 1.2). What the group
   * held before stays in front; nothing is removed.
   */
  method CreateBatteryPack(group: CellGroup, xDim: Dim, yDim: Dim, zDim: Dim)
    modifies group
    ensures group.cells == old(group.cells) + Pack(Count(xDim), Count(yDim), Count(zDim))
  {
    ghost var before := group.cells;
    ghost var nx, ny, nz := Count(xDim), Count(yDim), Count(zDim);
    var x := 0;
    while Below(x, xDim)
      invariant 0 <= x <= nx
      invariant group.cells == before + Pack(x, ny, nz)
      decreases nx - x
    {
      ghost var layerStart := group.cells;
      var y := 0;
      while Below(y, yDim)
        invariant 0 <= y <= ny
        invariant group.cells == layerStart + Layer(x, y, nz)
        decreases ny - y
      {
        ghost var stackStart := group.cells;
        var z := 0;
        while Below(z, zDim)
          invariant 0 <= z <= nz
          invariant group.cells == stackStart + Stack(x, y, z)
          decreases nz - z
        {
          var cell := MakeCell(x, y, z);
          group.Add(cell);
          AppendAssoc(stackStart, Stack(x, y, z), [cell]);
          z := z + 1;
        }
        assert z == nz;
        AppendAssoc(layerStart, Layer(x, y, nz), Stack(x, y, nz));
        y := y + 1;
      }
      assert y == ny;
      AppendAssoc(before, Pack(x, ny, nz), Layer(x, ny, nz));
      x := x + 1;
    }
  }

  /** On page load every dimension input is set back to the text "1". */
  method ResetInputs(inputs: array<string>)
    modifies inputs
    ensures forall i :: 0 <= i < inputs.Length ==> inputs[i] == "1"
  {
    var i := 0;
    while i < inputs.Length
      invariant 0 <= i <= inputs.Length
      invariant forall j :: 0 <= j < i ==> inputs[j] == "1"
    {
      inputs[i] := "1";
      i := i + 1;
    }
  }

  /**
   * The first click after the page loads: ResetInputs has set each dimension
   * input to "1", which parseInt reads as 1, and the group is still the empty
   * one the page created. It receives exactly one cell, for index (0, 0, 0),
   * at the origin.
   */
  method FirstClickWithDefaults() returns (cells: seq<Cell>)
    ensures cells == [Cell(GridIndex(0, 0, 0), Vec3(0.0, 0.0, 0.0))]
  {
    var group := new CellGroup();
    CreateBatteryPack(group, Int(1), Int(1), Int(1));
    FirstCellAtOrigin(1, 1, 1);
    cells := group.cells;
  }

  /**
   * Two clicks with the same inputs on a fresh group: the second click does not
   * replace the first click's cells but appends an identical copy after them.
   */
  method ClickTwice(xDim: Dim, yDim: Dim, zDim: Dim) returns (first: seq<Cell>, second: seq<Cell>)
    ensures |first| == Count(xDim) * (Count(yDim) * Count(zDim))
    ensures |second| == 2 * |first|
    ensures second == first + first
  {
    ghost var pack := Pack(Count(xDim), Count(yDim), Count(zDim));
    var group := new CellGroup();
    CreateBatteryPack(group, xDim, yDim, zDim);
    first := group.cells;
    assert first == pack;
    PackLength(Count(xDim), Count(yDim), Count(zDim));
    CreateBatteryPack(group, xDim, yDim, zDim);
    second := group.cells;
  }
}
