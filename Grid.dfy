/**
 * The battery-pack grid: the cells that one build appends, as values.
 *
 * A build with dimensions (nx, ny, nz) enumerates every grid index (x, y, z)
 * with 0 <= x < nx, 0 <= y < ny and 0 <= z < nz, x outermost and z innermost,
 * and places the cell for (x, y, z) at (x * 1.2, y * 1.2, z * 1.2).
 * Stack, Layer and Pack follow the three nested loops: a Stack is what the
 * innermost (z) loop appends, a Layer what the middle (y) loop appends for
 * one x, and a Pack what the whole build appends.
 */
module Grid {

  /** The distance between neighbouring cells; the same on all three axes. */
  const CellSpacing: real := 1.2

  /** A 0-based grid index. */
  datatype GridIndex = GridIndex(x: int, y: int, z: int)

  /** A point in scene coordinates (exact reals, no floating-point rounding). */
  datatype Vec3 = Vec3(x: real, y: real, z: real)

  /** One cell mesh added to the group: the grid index it was made for and where it was placed. */
  datatype Cell = Cell(index: GridIndex, position: Vec3)

  /** Where the cell for grid index i is placed. */
  function PositionOf(i: GridIndex): Vec3
  {
    Vec3(i.x as real * CellSpacing, i.y as real * CellSpacing, i.z as real * CellSpacing)
  }

  function MakeCell(x: int, y: int, z: int): Cell
  {
    Cell(GridIndex(x, y, z), PositionOf(GridIndex(x, y, z)))
  }

  /** Grid index i lies in the nx by ny by nz grid. */
  predicate InGrid(i: GridIndex, nx: int, ny: int, nz: int)
  {
    0 <= i.x < nx && 0 <= i.y < ny && 0 <= i.z < nz
  }

  /** A cell of the nx by ny by nz grid, placed where its index says. */
  predicate WellPlaced(c: Cell, nx: int, ny: int, nz: int)
  {
    InGrid(c.index, nx, ny, nz) && c.position == PositionOf(c.index)
  }

  /** Lexicographic order on grid indices: x first, then y, then z. */
  predicate LexLess(i: GridIndex, j: GridIndex)
  {
    i.x < j.x || (i.x == j.x && (i.y < j.y || (i.y == j.y && i.z < j.z)))
  }

  /** The cells' indices strictly increase in x-major, then y, then z order. */
  predicate StrictlyIncreasing(s: seq<Cell>)
  {
    forall i, j :: 0 <= i < j < |s| ==> LexLess(s[i].index, s[j].index)
  }

  /** The cells the innermost loop appends for fixed x and y: z = 0, 1, ..., nz - 1. */
  function Stack(x: int, y: int, nz: nat): (r: seq<Cell>)
    ensures |r| == nz
  {
    if nz == 0 then [] else Stack(x, y, nz - 1) + [MakeCell(x, y, nz - 1)]
  }

  /** The cells the two inner loops append for fixed x: y = 0, 1, ..., ny - 1. */
  function Layer(x: int, ny: nat, nz: nat): seq<Cell>
  {
    if ny == 0 then [] else Layer(x, ny - 1, nz) + Stack(x, ny - 1, nz)
  }

  /** The cells one build appends: x = 0, 1, ..., nx - 1. */
  function Pack(nx: nat, ny: nat, nz: nat): seq<Cell>
  {
    if nx == 0 then [] else Pack(nx - 1, ny, nz) + Layer(nx - 1, ny, nz)
  }

  /** A layer holds ny * nz cells. */
  lemma {:induction false} LayerLength(x: int, ny: nat, nz: nat)
    ensures |Layer(x, ny, nz)| == ny * nz
  {
    if ny > 0 {
      LayerLength(x, ny - 1, nz);
    }
  }

  /** One build appends exactly nx * ny * nz cells. */
  lemma {:induction false} PackLength(nx: nat, ny: nat, nz: nat)
    ensures |Pack(nx, ny, nz)| == nx * (ny * nz)
  {
    if nx > 0 {
      PackLength(nx - 1, ny, nz);
      LayerLength(nx - 1, ny, nz);
      MulPred(nx, ny * nz);
    }
  }

  /** The c-th cell of a stack is the cell for index (x, y, c). */
  lemma {:induction false} StackAt(x: int, y: int, nz: nat, c: int)
    requires 0 <= c < nz
    ensures Stack(x, y, nz)[c] == MakeCell(x, y, c)
  {
    if c < nz - 1 {
      StackAt(x, y, nz - 1, c);
    }
  }

  /** One more row of m: (n - 1) * m + m is n * m. */
  lemma MulPred(n: int, m: int)
    ensures (n - 1) * m + m == n * m
  {
  }

  /** Multiplying both sides of a <= b by a natural number keeps the order. */
  lemma MulMono(a: int, b: int, c: nat)
    requires a <= b
    ensures a * c <= b * c
  {
  }

  /** Within one layer, the cell for (x, b, c) sits at offset b * nz + c. */
  lemma {:induction false} LayerAt(x: int, ny: nat, nz: nat, b: int, c: int)
    requires 0 <= b < ny && 0 <= c < nz
    ensures 0 <= b * nz + c < |Layer(x, ny, nz)|
    ensures Layer(x, ny, nz)[b * nz + c] == MakeCell(x, b, c)
  {
    if b < ny - 1 {
      LayerAt(x, ny - 1, nz, b, c);
    } else {
      LayerLength(x, ny - 1, nz);
      MulMono(0, b, nz);
      StackAt(x, b, nz, c);
    }
  }

  /** The cell for (a, b, c) sits at offset a * (ny * nz) + b * nz + c of the pack. */
  lemma {:induction false} PackAtDigits(nx: nat, ny: nat, nz: nat, a: int, b: int, c: int)
    requires InGrid(GridIndex(a, b, c), nx, ny, nz)
    ensures 0 <= a * (ny * nz) + b * nz + c < |Pack(nx, ny, nz)|
    ensures Pack(nx, ny, nz)[a * (ny * nz) + b * nz + c] == MakeCell(a, b, c)
  {
    if a < nx - 1 {
      PackAtDigits(nx - 1, ny, nz, a, b, c);
    } else {
      PackLength(nx - 1, ny, nz);
      MulMono(0, a, ny * nz);
      LayerAt(a, ny, nz, b, c);
    }
  }

  /** Euclidean division is unique: q and r are the quotient and remainder of k by d. */
  lemma DivModUnique(k: int, d: int, q: int, r: int)
    requires 0 < d && 0 <= r < d && k == q * d + r
    ensures k / d == q && k % d == r
  {
    var q' := k / d;
    if q' < q {
      MulMono(q' + 1, q, d);
    } else if q < q' {
      MulMono(q + 1, q', d);
    }
  }

  /** k written in the mixed radix (ny * nz, nz, 1): k / (ny * nz), (k / nz) % ny and k % nz are its digits. */
  lemma MixedRadix(k: nat, ny: nat, nz: nat)
    requires 0 < ny && 0 < nz
    ensures 0 <= (k / nz) % ny < ny && 0 <= k % nz < nz
    ensures k == k / (ny * nz) * (ny * nz) + (k / nz) % ny * nz + k % nz
  {
    var q, c := k / nz, k % nz;
    var a, b := q / ny, q % ny;
    assert k == (a * ny + b) * nz + c;
    assert k == a * (ny * nz) + (b * nz + c);
    MulMono(0, b, nz);
    MulMono(b + 1, ny, nz);
    DivModUnique(k, ny * nz, a, b * nz + c);
  }

  /** Every k below nx * ny * nz has digits (k / (ny * nz), (k / nz) % ny, k % nz) in the grid. */
  lemma DigitsInGrid(nx: nat, ny: nat, nz: nat, k: int)
    requires 0 <= k < nx * (ny * nz)
    ensures 0 < ny && 0 < nz
    ensures InGrid(GridIndex(k / (ny * nz), (k / nz) % ny, k % nz), nx, ny, nz)
    ensures k == k / (ny * nz) * (ny * nz) + (k / nz) % ny * nz + k % nz
  {
    var m := ny * nz;
    assert 0 < ny && 0 < nz by {
      if m == 0 {
        MulMono(0, 0, nx);
      }
    }
    MixedRadix(k, ny, nz);
    var a := k / m;
    assert a < nx by {
      if nx <= a {
        MulMono(nx, a, m);
      }
    }
  }

  /**
   * The k-th cell of a build has index (k / (ny * nz), (k / nz) % ny, k % nz):
   * the cells come in x-major, then y, then z ascending order.
   */
  lemma PackAt(nx: nat, ny: nat, nz: nat, k: int)
    requires 0 <= k < nx * (ny * nz)
    ensures |Pack(nx, ny, nz)| == nx * (ny * nz)
    ensures Pack(nx, ny, nz)[k] == MakeCell(k / (ny * nz), (k / nz) % ny, k % nz)
  {
    PackLength(nx, ny, nz);
    DigitsInGrid(nx, ny, nz, k);
    PackAtDigits(nx, ny, nz, k / (ny * nz), (k / nz) % ny, k % nz);
  }

  /** A non-empty build starts with the cell for (0, 0, 0), placed at the origin. */
  lemma FirstCellAtOrigin(nx: nat, ny: nat, nz: nat)
    requires 0 < nx && 0 < ny && 0 < nz
    ensures Pack(nx, ny, nz) != []
    ensures Pack(nx, ny, nz)[0] == Cell(GridIndex(0, 0, 0), Vec3(0.0, 0.0, 0.0))
  {
    PackAtDigits(nx, ny, nz, 0, 0, 0);
  }

  /** A build appends nothing exactly when some dimension is zero. */
  lemma PackEmptyIff(nx: nat, ny: nat, nz: nat)
    ensures Pack(nx, ny, nz) == [] <==> nx == 0 || ny == 0 || nz == 0
  {
    PackLength(nx, ny, nz);
    if 0 < nx && 0 < ny && 0 < nz {
      MulMono(1, ny, nz);
      MulMono(1, nx, ny * nz);
    }
  }

  /** Every grid index appears among the cells of a build. */
  lemma PackCoversGrid(nx: nat, ny: nat, nz: nat, i: GridIndex)
    requires InGrid(i, nx, ny, nz)
    ensures exists k :: 0 <= k < |Pack(nx, ny, nz)| && Pack(nx, ny, nz)[k] == MakeCell(i.x, i.y, i.z)
  {
    PackAtDigits(nx, ny, nz, i.x, i.y, i.z);
  }

  lemma StrictlyIncreasingConcat(s: seq<Cell>, t: seq<Cell>)
    requires StrictlyIncreasing(s) && StrictlyIncreasing(t)
    requires forall i, j :: 0 <= i < |s| && 0 <= j < |t| ==> LexLess(s[i].index, t[j].index)
    ensures StrictlyIncreasing(s + t)
  {
    forall i, j | 0 <= i < j < |s + t|
      ensures LexLess((s + t)[i].index, (s + t)[j].index)
    {
      if j < |s| {
      } else if i >= |s| {
        assert (s + t)[i] == t[i - |s|] && (s + t)[j] == t[j - |s|];
      } else {
        assert (s + t)[j] == t[j - |s|];
      }
    }
  }

  /** The cells of a stack are the cells for (x, y, 0), (x, y, 1), ... in that order. */
  lemma StackShape(x: int, y: int, nz: nat)
    ensures StrictlyIncreasing(Stack(x, y, nz))
    ensures forall k :: 0 <= k < nz ==> Stack(x, y, nz)[k] == MakeCell(x, y, k)
  {
    forall k | 0 <= k < nz
      ensures Stack(x, y, nz)[k] == MakeCell(x, y, k)
    {
      StackAt(x, y, nz, k);
    }
  }

  /** A layer is strictly increasing and every cell in it belongs to x-slice x of the grid. */
  lemma {:induction false} LayerShape(x: nat, ny: nat, nz: nat)
    ensures StrictlyIncreasing(Layer(x, ny, nz))
    ensures forall k :: 0 <= k < |Layer(x, ny, nz)| ==>
      Layer(x, ny, nz)[k].index.x == x && WellPlaced(Layer(x, ny, nz)[k], x + 1, ny, nz)
  {
    if ny > 0 {
      var prev, st := Layer(x, ny - 1, nz), Stack(x, ny - 1, nz);
      LayerShape(x, ny - 1, nz);
      StackShape(x, ny - 1, nz);
      forall i, j | 0 <= i < |prev| && 0 <= j < |st|
        ensures LexLess(prev[i].index, st[j].index)
      {
        assert prev[i].index.y < ny - 1;
      }
      StrictlyIncreasingConcat(prev, st);
      assert Layer(x, ny, nz) == prev + st;
      forall k | 0 <= k < |prev + st|
        ensures (prev + st)[k].index.x == x && WellPlaced((prev + st)[k], x + 1, ny, nz)
      {
        if k < |prev| {
          assert (prev + st)[k] == prev[k];
          assert WellPlaced(prev[k], x + 1, ny - 1, nz);
        } else {
          var j := k - |prev|;
          assert 0 <= j < nz;
          assert (prev + st)[k] == st[j] == MakeCell(x, ny - 1, j);
        }
      }
    }
  }

  /**
   * The cells of a build are in strictly increasing x-major, y, z order,
   * each belongs to the grid and each is placed where its index says.
   */
  lemma {:induction false} PackShape(nx: nat, ny: nat, nz: nat)
    ensures StrictlyIncreasing(Pack(nx, ny, nz))
    ensures forall k :: 0 <= k < |Pack(nx, ny, nz)| ==> WellPlaced(Pack(nx, ny, nz)[k], nx, ny, nz)
  {
    if nx > 0 {
      var prev, layer := Pack(nx - 1, ny, nz), Layer(nx - 1, ny, nz);
      PackShape(nx - 1, ny, nz);
      LayerShape(nx - 1, ny, nz);
      StrictlyIncreasingConcat(prev, layer);
      assert Pack(nx, ny, nz) == prev + layer;
      forall k | 0 <= k < |prev + layer|
        ensures WellPlaced((prev + layer)[k], nx, ny, nz)
      {
        if k >= |prev| {
          assert (prev + layer)[k] == layer[k - |prev|];
        }
      }
    }
  }

  /** Every cell of a build lies in the box [0, (nx-1)*1.2] x [0, (ny-1)*1.2] x [0, (nz-1)*1.2]. */
  lemma PackInBox(nx: nat, ny: nat, nz: nat, k: int)
    requires 0 <= k < |Pack(nx, ny, nz)|
    ensures var p := Pack(nx, ny, nz)[k].position;
      0.0 <= p.x <= (nx - 1) as real * CellSpacing &&
      0.0 <= p.y <= (ny - 1) as real * CellSpacing &&
      0.0 <= p.z <= (nz - 1) as real * CellSpacing
  {
    PackShape(nx, ny, nz);
    assert WellPlaced(Pack(nx, ny, nz)[k], nx, ny, nz);
  }

  /** No two cells of one build have the same grid index or the same position. */
  lemma PackDistinct(nx: nat, ny: nat, nz: nat, i: int, j: int)
    requires 0 <= i < |Pack(nx, ny, nz)| && 0 <= j < |Pack(nx, ny, nz)| && i != j
    ensures Pack(nx, ny, nz)[i].index != Pack(nx, ny, nz)[j].index
    ensures Pack(nx, ny, nz)[i].position != Pack(nx, ny, nz)[j].position
  {
    PackShape(nx, ny, nz);
    var p := Pack(nx, ny, nz);
    if i < j {
      assert LexLess(p[i].index, p[j].index);
    } else {
      assert LexLess(p[j].index, p[i].index);
    }
    assert WellPlaced(p[i], nx, ny, nz) && WellPlaced(p[j], nx, ny, nz);
  }
}
