/**
 * The simulation constants and the cell-index mapping of the
 * Velocity-Stormer-Verlet particle simulation.
 *
 * The header's macro maps cells of a 3-D grid to linear numbers; its likely
 * use is the addressing of a cell-linked-list neighbour search. A cell is named by its integer grid coordinates
 * `ic = (ic0, ic1, ic2)` in a grid of `nc = (nc0, nc1, nc2)` cells, and is
 * stored under one linear cell number computed in Horner form,
 * `ic0 + nc0 * (ic1 + nc1 * ic2)`: row-major order with the first axis
 * varying fastest. This module gives that mapping and proves that it is a
 * bijection from the cells of the grid onto `[0, nc0 * nc1 * nc2)`, with its
 * inverse, its strides and its ordering.
 */
module SimConstants {

  // ---------------------------------------------------------------------------
  // Integer simulation constants (the real-valued ones are not modelled)
  // ---------------------------------------------------------------------------

  /** Energy parameter of the potential. */
  const Eps: int := 1
  /** Steepness exponent of the pair potential. */
  const NInt: int := 9
  /** Range exponent of the pair potential. */
  const MInt: int := 6

  /** The integer constants keep the header's values. */
  lemma IntegerConstants()
    ensures Eps == 1 && NInt == 9 && MInt == 6
    ensures 0 < MInt < NInt
  {
  }

  /** Largest value of a 32-bit C `int`. */
  const IntMax: int := 0x7fff_ffff

  // ---------------------------------------------------------------------------
  // Grid coordinates and the cell-index macro
  // ---------------------------------------------------------------------------

  /** Three integers indexed 0, 1, 2 in the source: a cell coordinate or a grid extent. */
  datatype Int3 = Int3(x: int, y: int, z: int)

  /** Every axis of the grid has at least one cell. */
  predicate ValidGrid(nc: Int3) {
    nc.x > 0 && nc.y > 0 && nc.z > 0
  }

  /** The cell `ic` lies inside the grid `nc`: `0 <= ic_k < nc_k` on each axis. */
  predicate InGrid(ic: Int3, nc: Int3) {
    0 <= ic.x < nc.x && 0 <= ic.y < nc.y && 0 <= ic.z < nc.z
  }

  /** Number of cells of the grid. */
  function CellCount(nc: Int3): (n: int)
    ensures ValidGrid(nc) ==> n > 0
  {
    nc.x * nc.y * nc.z
  }

  /**
   * The `index(ic, nc)` macro: the linear number of cell `ic` in grid `nc`.
   * Like the macro it has no bounds handling and never reads `nc.z`. For a
   * cell inside the grid the number lies in `[0, nc0 * nc1 * nc2)`, and
   * division and remainder give back each coordinate.
   */
  function Index(ic: Int3, nc: Int3): (idx: int)
    ensures InGrid(ic, nc) ==> 0 <= idx < CellCount(nc)
    ensures InGrid(ic, nc) ==> idx % nc.x == ic.x
    ensures InGrid(ic, nc) ==> (idx / nc.x) % nc.y == ic.y
    ensures InGrid(ic, nc) ==> idx / (nc.x * nc.y) == ic.z
  {
    MixedRadix(ic, nc);
    ic.x + nc.x * (ic.y + nc.y * ic.z)
  }

  /**
   * Inverse of `Index`: the cell whose number is `idx`, recovered by division
   * and remainder (the operands are non-negative, so Dafny's Euclidean
   * operators agree with C's). Every number of the range names a cell of the
   * grid.
   */
  function Unindex(idx: int, nc: Int3): (ic: Int3)
    requires ValidGrid(nc) && 0 <= idx < CellCount(nc)
    ensures InGrid(ic, nc) && Index(ic, nc) == idx
  {
    UnindexDigits(idx, nc);
    Int3(idx % nc.x, (idx / nc.x) % nc.y, idx / (nc.x * nc.y))
  }

  /** Lexicographic order on cells, most significant axis last (z, then y, then x). */
  predicate RowMajorLess(a: Int3, b: Int3) {
    a.z < b.z || (a.z == b.z && (a.y < b.y || (a.y == b.y && a.x < b.x)))
  }

  // ---------------------------------------------------------------------------
  // Reference enumeration: the cells listed recursively in the order of three
  // nested loops, z outermost and x innermost
  // ---------------------------------------------------------------------------

  /** The cells `(0, y, z), (1, y, z), ..., (nx - 1, y, z)` of one grid line. */
  function LineCells(nx: nat, y: int, z: int): (s: seq<Int3>)
    ensures |s| == nx
    ensures forall i :: 0 <= i < nx ==> s[i] == Int3(i, y, z)
  {
    if nx == 0 then [] else LineCells(nx - 1, y, z) + [Int3(nx - 1, y, z)]
  }

  /** The lines `y = 0, 1, ..., ny - 1` of the plane `z`, one after another. */
  function PlaneCells(nx: nat, ny: nat, z: int): (s: seq<Int3>)
    ensures |s| == nx * ny
    ensures forall i :: 0 <= i < |s| ==>
      s[i].z == z && 0 <= s[i].x < nx && 0 <= s[i].y < ny && s[i].x + nx * s[i].y == i
  {
    if ny == 0 then []
    else
      assert nx * ny == nx * (ny - 1) + nx;
      PlaneCells(nx, ny - 1, z) + LineCells(nx, ny - 1, z)
  }

  /** The planes `z = 0, 1, ..., nc2 - 1` of the grid, one after another. */
  function RowMajorCells(nc: Int3): (s: seq<Int3>)
    requires nc.x >= 0 && nc.y >= 0 && nc.z >= 0
    ensures |s| == CellCount(nc)
    decreases nc.z
  {
    if nc.z == 0 then []
    else
      var below := Int3(nc.x, nc.y, nc.z - 1);
      assert CellCount(nc) == CellCount(below) + nc.x * nc.y;
      RowMajorCells(below) + PlaneCells(nc.x, nc.y, nc.z - 1)
  }

  // ---------------------------------------------------------------------------
  // Two-digit mixed-radix arithmetic: `a + n * b` with the digit `0 <= a < n`
  // ---------------------------------------------------------------------------

  lemma MulMonotone(n: int, b: int, c: int)
    requires n > 0 && b <= c
    ensures n * b <= n * c
  {
    assert n * c - n * b == n * (c - b);
  }

  /** A low digit below `n` and a high digit below `m` give a number below `n * m`. */
  lemma DigitBound(a: int, b: int, n: int, m: int)
    requires 0 <= a < n && 0 <= b < m
    ensures 0 <= n * b && 0 <= a + n * b < n * m
  {
    MulMonotone(n, 0, b);
    MulMonotone(n, b, m - 1);
    assert n * (m - 1) == n * m - n;
  }

  /** Division and remainder by `n` split `a + n * b` back into its digits. */
  lemma DigitSplit(a: int, b: int, n: int)
    requires 0 <= a < n
    ensures (a + n * b) / n == b && (a + n * b) % n == a
  {
    var v := a + n * b;
    var q, r := v / n, v % n;
    assert v == n * q + r && 0 <= r < n;
    assert n * (b - q) == r - a;
    if b - q >= 1 {
      MulMonotone(n, 1, b - q);
      assert false;
    } else if b - q <= -1 {
      MulMonotone(n, b - q, -1);
      assert false;
    }
  }

  /** Comparing two-digit numbers compares the high digits first. */
  lemma DigitLess(a1: int, b1: int, a2: int, b2: int, n: int)
    requires 0 <= a1 < n && 0 <= a2 < n
    ensures a1 + n * b1 < a2 + n * b2 <==> b1 < b2 || (b1 == b2 && a1 < a2)
  {
    if b1 < b2 {
      MulMonotone(n, b1 + 1, b2);
      assert n * (b1 + 1) == n * b1 + n;
    } else if b2 < b1 {
      MulMonotone(n, b2 + 1, b1);
      assert n * (b2 + 1) == n * b2 + n;
    }
  }

  /** The Horner form with three digits, regrouped as in-plane part plus `nx * ny` times `z`. */
  lemma HornerRegroup(x: int, y: int, z: int, nx: int, ny: int)
    ensures x + nx * (y + ny * z) == (x + nx * y) + (nx * ny) * z
  {
    assert nx * (ny * z) == (nx * ny) * z;
  }

  /** Bounds and digits of the macro's expression for a cell inside the grid. */
  lemma MixedRadix(ic: Int3, nc: Int3)
    ensures InGrid(ic, nc) ==>
      var v := ic.x + nc.x * (ic.y + nc.y * ic.z);
      0 <= v < CellCount(nc) && v % nc.x == ic.x && (v / nc.x) % nc.y == ic.y &&
      v / (nc.x * nc.y) == ic.z
  {
    if InGrid(ic, nc) {
      DigitBound(ic.y, ic.z, nc.y, nc.z);
      DigitBound(ic.x, ic.y + nc.y * ic.z, nc.x, nc.y * nc.z);
      assert nc.x * (nc.y * nc.z) == CellCount(nc);
      DigitSplit(ic.x, ic.y + nc.y * ic.z, nc.x);
      DigitSplit(ic.y, ic.z, nc.y);
      HornerRegroup(ic.x, ic.y, ic.z, nc.x, nc.y);
      DigitBound(ic.x, ic.y, nc.x, nc.y);
      DigitSplit(ic.x + nc.x * ic.y, ic.z, nc.x * nc.y);
    }
  }

  /** The three digits of a number of the range form a cell whose Horner form is that number. */
  lemma UnindexDigits(idx: int, nc: Int3)
    requires ValidGrid(nc) && 0 <= idx < CellCount(nc)
    ensures
      var c := Int3(idx % nc.x, (idx / nc.x) % nc.y, idx / (nc.x * nc.y));
      InGrid(c, nc) && c.x + nc.x * (c.y + nc.y * c.z) == idx
  {
    var q0 := idx / nc.x;
    var r0 := idx % nc.x;
    var q1 := q0 / nc.y;
    var r1 := q0 % nc.y;
    assert idx == r0 + nc.x * q0;
    assert q0 == r1 + nc.y * q1;
    HornerRegroup(r0, r1, q1, nc.x, nc.y);
    DigitBound(r0, r1, nc.x, nc.y);
    DigitSplit(r0 + nc.x * r1, q1, nc.x * nc.y);
    // The high digit lies in [0, nc2).
    if q1 < 0 {
      MulMonotone(nc.x * nc.y, q1, -1);
      assert false;
    } else if q1 >= nc.z {
      MulMonotone(nc.x * nc.y, nc.z, q1);
      assert false;
    }
  }

  // ---------------------------------------------------------------------------
  // Properties of the mapping
  // ---------------------------------------------------------------------------

  /** Horner form and the expanded sum of strides agree, for any coordinates. */
  lemma IndexExpanded(ic: Int3, nc: Int3)
    ensures Index(ic, nc) == ic.x + nc.x * ic.y + nc.x * nc.y * ic.z
  {
    HornerRegroup(ic.x, ic.y, ic.z, nc.x, nc.y);
  }

  /** The origin cell has number 0 whatever the grid. */
  lemma IndexOrigin(nc: Int3)
    ensures Index(Int3(0, 0, 0), nc) == 0
  {
  }

  /** `Unindex` undoes `Index` on every cell of the grid. */
  lemma UnindexIndex(ic: Int3, nc: Int3)
    requires InGrid(ic, nc)
    ensures Unindex(Index(ic, nc), nc) == ic
  {
  }

  /** Two cells of the same grid with the same number are the same cell. */
  lemma IndexInjective(a: Int3, b: Int3, nc: Int3)
    requires InGrid(a, nc) && InGrid(b, nc)
    requires Index(a, nc) == Index(b, nc)
    ensures a == b
  {
    UnindexIndex(a, nc);
    UnindexIndex(b, nc);
  }

  /** Cell numbers follow row-major order: z most significant, x least. */
  lemma IndexOrder(a: Int3, b: Int3, nc: Int3)
    requires InGrid(a, nc) && InGrid(b, nc)
    ensures Index(a, nc) < Index(b, nc) <==> RowMajorLess(a, b)
  {
    HornerRegroup(a.x, a.y, a.z, nc.x, nc.y);
    HornerRegroup(b.x, b.y, b.z, nc.x, nc.y);
    DigitBound(a.x, a.y, nc.x, nc.y);
    DigitBound(b.x, b.y, nc.x, nc.y);
    DigitLess(a.x, a.y, b.x, b.y, nc.x);
    DigitLess(a.x + nc.x * a.y, a.z, b.x + nc.x * b.y, b.z, nc.x * nc.y);
  }

  /** One step along x, y or z moves the number by 1, nc0 or nc0 * nc1. */
  lemma IndexStrides(ic: Int3, nc: Int3)
    ensures Index(Int3(ic.x + 1, ic.y, ic.z), nc) == Index(ic, nc) + 1
    ensures Index(Int3(ic.x, ic.y + 1, ic.z), nc) == Index(ic, nc) + nc.x
    ensures Index(Int3(ic.x, ic.y, ic.z + 1), nc) == Index(ic, nc) + nc.x * nc.y
  {
    HornerRegroup(ic.x, ic.y, ic.z, nc.x, nc.y);
    HornerRegroup(ic.x, ic.y, ic.z + 1, nc.x, nc.y);
    assert (nc.x * nc.y) * (ic.z + 1) == (nc.x * nc.y) * ic.z + nc.x * nc.y;
    assert nc.x * ((ic.y + 1) + nc.y * ic.z) == nc.x * (ic.y + nc.y * ic.z) + nc.x;
  }

  /** The z extent of the grid does not enter the number; it only bounds `ic2`. */
  lemma IndexIgnoresZExtent(ic: Int3, nc: Int3, nz: int)
    ensures Index(ic, nc) == Index(ic, Int3(nc.x, nc.y, nz))
  {
  }

  /** The last cell has the last number, so the grid's cells fill the range exactly. */
  lemma IndexLastCell(nc: Int3)
    requires ValidGrid(nc)
    ensures Index(Int3(nc.x - 1, nc.y - 1, nc.z - 1), nc) == CellCount(nc) - 1
  {
    calc {
      Index(Int3(nc.x - 1, nc.y - 1, nc.z - 1), nc);
      (nc.x - 1) + nc.x * ((nc.y - 1) + nc.y * (nc.z - 1));
      { assert (nc.y - 1) + nc.y * (nc.z - 1) == nc.y * nc.z - 1; }
      (nc.x - 1) + nc.x * (nc.y * nc.z - 1);
      { assert nc.x * (nc.y * nc.z - 1) == nc.x * (nc.y * nc.z) - nc.x; }
      nc.x * (nc.y * nc.z) - 1;
      { assert nc.x * (nc.y * nc.z) == CellCount(nc); }
      CellCount(nc) - 1;
    }
  }

  /**
   * On a grid of at most 2^31 cells the macro evaluated in C `int`
   * arithmetic cannot overflow: every intermediate value of the Horner form
   * lies in `[0, IntMax]` for a cell inside the grid.
   */
  lemma IndexFitsInt(ic: Int3, nc: Int3)
    requires InGrid(ic, nc) && CellCount(nc) <= IntMax + 1
    ensures 0 <= nc.y * ic.z <= IntMax
    ensures 0 <= ic.y + nc.y * ic.z <= IntMax
    ensures 0 <= nc.x * (ic.y + nc.y * ic.z) <= IntMax
    ensures 0 <= Index(ic, nc) <= IntMax
  {
    DigitBound(ic.y, ic.z, nc.y, nc.z);
    DigitBound(ic.x, ic.y + nc.y * ic.z, nc.x, nc.y * nc.z);
    var yz := nc.y * nc.z;
    assert nc.x * yz == CellCount(nc);
    MulMonotone(yz, 1, nc.x);
    assert yz * nc.x == nc.x * yz;
  }

  /** The i-th cell of the row-major enumeration lies in the grid and has number i. */
  lemma {:induction false} RowMajorCellsNumbered(nc: Int3)
    requires nc.x >= 0 && nc.y >= 0 && nc.z >= 0
    ensures forall i :: 0 <= i < |RowMajorCells(nc)| ==>
      InGrid(RowMajorCells(nc)[i], nc) && Index(RowMajorCells(nc)[i], nc) == i
    decreases nc.z
  {
    if nc.z > 0 {
      var below := Int3(nc.x, nc.y, nc.z - 1);
      RowMajorCellsNumbered(below);
      var s, prev, plane := RowMajorCells(nc), RowMajorCells(below), PlaneCells(nc.x, nc.y, nc.z - 1);
      assert s == prev + plane;
      forall i | 0 <= i < |s|
        ensures InGrid(s[i], nc) && Index(s[i], nc) == i
      {
        if i < |prev| {
          assert s[i] == prev[i];
        } else {
          var c := s[i];
          assert c == plane[i - |prev|];
          HornerRegroup(c.x, c.y, c.z, nc.x, nc.y);
          assert |prev| == (nc.x * nc.y) * (nc.z - 1);
        }
      }
    }
  }

  /** Every cell of the grid stands in the row-major enumeration at the position given by its number. */
  lemma RowMajorCellsAt(ic: Int3, nc: Int3)
    requires InGrid(ic, nc)
    ensures Index(ic, nc) < |RowMajorCells(nc)| && RowMajorCells(nc)[Index(ic, nc)] == ic
  {
    RowMajorCellsNumbered(nc);
    var i := Index(ic, nc);
    IndexInjective(RowMajorCells(nc)[i], ic, nc);
  }
}
