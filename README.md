# Cell-index mapping of the Velocity-Stormer-Verlet simulation

The Velocity-Stormer-Verlet program simulates copper atoms under the
Sutton-Chen embedded-atom potential. Its header `sim_constants.h` holds the
potential's constants and the `index(ic, nc)` macro, headed "index mapping
of cells in 3 dimensions". No file in this model uses the macro; its likely
use is the addressing of a cell-linked-list neighbour search. The macro maps the integer grid coordinates
`ic = (ic0, ic1, ic2)` of a cell, in a grid of `nc = (nc0, nc1, nc2)` cells,
to one linear cell number `ic0 + nc0*(ic1 + nc1*ic2)`. This is row-major
order with the x axis varying fastest.

`sim_constants.dfy` (module `SimConstants`) models that header:

- the integer constants `eps = 1`, `nint = 9` and `mint = 6` as `Eps`,
  `NInt` and `MInt`;
- a cell coordinate or grid extent as the value `Int3(x, y, z)`, for the
  source's `[0]`, `[1]` and `[2]`;
- the macro as the total function `Index`, with the same Horner-form
  expression. It does not clamp or wrap, and it never reads `nc.z`;
- an inverse `Unindex` that recovers the coordinates by division and
  remainder;
- a reference listing `RowMajorCells` of the grid's cells, defined
  recursively in the order of three nested loops (z outermost, x innermost),
  against which the macro's numbering is checked.

The lemmas hold for cells that satisfy `0 <= ic_k < nc_k` (`InGrid`). For
those cells they prove that `Index` is a bijection onto
`[0, nc0*nc1*nc2)`, that `Unindex` is its inverse, that the numbers follow
row-major order, and that each axis has a fixed stride. Coordinates outside
the grid are outside the macro's contract. The lemmas exclude them with
`requires`, and the model invents no policy for them. A spatial index built
on the macro would need its own wrap or clamp policy; the macro has none, and
the model follows the macro.

The type of the `ic` and `nc` arrays is declared in a header that is not part
of this model. The model computes on unbounded integers. `IndexFitsInt` shows
that evaluating the macro in 32-bit C `int` arithmetic cannot overflow for a
cell inside a grid of at most 2^31 cells.

## Model

| member | source | states |
|---|---|---|
| `SimConstants.IntegerConstants` | sim_constants.h:2-6 | `Eps` has the value 1 (line 2), `NInt` the value 9 (line 5) and `MInt` the value 6 (line 6); so the range exponent is positive and below the steepness exponent; lines 3-4 are the real-valued constants, left out. |
| `SimConstants.Index` | sim_constants.h:9 | For a cell with `0 <= ic_k < nc_k`, the number lies in `[0, nc0*nc1*nc2)`, and `idx % nc0 == ic0`, `(idx / nc0) % nc1 == ic1`, `idx / (nc0*nc1) == ic2`. |
| `SimConstants.Unindex` | sim_constants.h:9 | Every number in `[0, nc0*nc1*nc2)` decodes to a cell inside the grid whose number it is, so the mapping is onto the range. |
| `SimConstants.UnindexIndex` | sim_constants.h:9 | Decoding the number of a cell in the grid gives back that cell. |
| `SimConstants.IndexInjective` | sim_constants.h:9 | Two cells of the same grid with the same number are equal. |
| `SimConstants.IndexExpanded` | sim_constants.h:9 | For any coordinates, the Horner form equals the expanded sum `ic0 + nc0*ic1 + nc0*nc1*ic2`. |
| `SimConstants.IndexOrigin` | sim_constants.h:9 | Cell `(0,0,0)` gets number 0 in every grid. |
| `SimConstants.IndexOrder` | sim_constants.h:9 | For cells in the grid, one number is smaller than another exactly when its cell comes first in row-major order (z, then y, then x). |
| `SimConstants.IndexStrides` | sim_constants.h:9 | For any coordinates, one step along x, y or z raises the number by 1, `nc0` or `nc0*nc1`. |
| `SimConstants.IndexIgnoresZExtent` | sim_constants.h:9 | The number does not depend on the z extent `nc2`. |
| `SimConstants.IndexLastCell` | sim_constants.h:9 | On a grid with every extent positive, cell `(nc0-1, nc1-1, nc2-1)` gets number `nc0*nc1*nc2 - 1`. |
| `SimConstants.IndexFitsInt` | sim_constants.h:9 | For a cell in a grid of at most 2^31 cells, every intermediate value of the macro lies in `[0, 2^31 - 1]`, so C `int` arithmetic cannot overflow. |
| `SimConstants.RowMajorCells` | sim_constants.h:9 | Listing the cells, defined recursively in the order of three nested loops (z outermost, x innermost), yields exactly `nc0*nc1*nc2` cells. |
| `SimConstants.RowMajorCellsNumbered` | sim_constants.h:9 | The i-th cell of that listing lies in the grid and the macro gives it number i. |
| `SimConstants.RowMajorCellsAt` | sim_constants.h:9 | Every cell of the grid stands in that listing at the position the macro gives it, so the macro numbers cells in row-major order with x fastest. |

## Left out

- The real-valued constants `lat_const` and `cn` (sim_constants.h:3-4). They only feed floating-point computations.
- Reading the particle file, counting records and copying them into the particle array (velocity-stormer-verlet_method_02.c:39-48, 69-84). This is file I/O, and the copy scales positions by the floating-point `lat_const`.
- Allocating and freeing the particle array, the greeting, the memory report, the key wait and closing the file (velocity-stormer-verlet_method_02.c:51-58, 115-120). None of these has algorithmic content.
- The net-force magnitude (velocity-stormer-verlet_method_02.c:104-113). It is a floating-point Euclidean norm computed with `pow`, used only for printing.
- `F_i`, `Utot`, `timeIntegration2_basis` and `particleFileContent`, named in velocity-stormer-verlet_method_02.c. Only `particleFileContent` (line 85) and `F_i` (line 105) are called; `timeIntegration2_basis` (line 93) and `Utot` (line 99) appear only in commented-out code. Their bodies are in `velocity-stormer-verlet_02.h`, which is not part of this model, and they are floating-point numerics.
- Neighbour enumeration over adjacent cells, and any wrap or clamp policy for cells outside the grid. Neither exists in the macro.
- `Unindex` and `RowMajorCells` exist only in the model. They are the inverse and the reference order against which the macro is proved. `Unindex` divides non-negative operands, where Dafny's Euclidean operators agree with C's truncating ones.
