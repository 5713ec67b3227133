# Battery-pack cell generator, modelled in Dafny

The page script `src/script.js` draws a rectangular "battery pack" of box
cells with three.js. Its one piece of logic is the click handler
`createBatteryPack`. It reads three dimensions from text inputs. A triple
nested loop (x outermost, z innermost) then adds one cell mesh per grid index
`(x, y, z)`, with `0 <= x < xDim`, `0 <= y < yDim` and `0 <= z < zDim`, to a
page-wide `THREE.Group` called `cellGroup`. Each cell is placed at
`(x * 1.2, y * 1.2, z * 1.2)`. The group is created once and never emptied, so
every click appends to it. When the page loads, every dimension input is reset
to the text `"1"`.

The model has two modules:

- `Grid` (`Grid.dfy`) holds the values: a grid index, a position and a cell.
  It also holds the specification of what one build appends. `Stack`, `Layer`
  and `Pack` follow the z, y and x loops. The lemmas prove how many cells a
  build appends, their order (with the closed form of the k-th cell), where
  each one is placed, that every grid index appears once, and that all
  positions lie in the expected box and are pairwise distinct.
- `Script` (`Script.dfy`) holds the imperative side. `CellGroup` is a class
  whose `cells` field is the group's children. `CreateBatteryPack` runs the
  three nested loops, with invariants over the prefix appended so far, and is
  proved to append exactly `Pack(...)` after the group's old contents.
  `ResetInputs` is the page-load loop. Two client methods show the first click
  with the reset inputs and two clicks in a row.

A dimension is modelled as an unbounded integer or NaN (`Script.Dim`). The
loop condition `i < dim` is false for NaN, so such a dimension counts as zero
iterations (`Script.Count`).

What the code does, and so what the model does:

- Indices are 0-based.
- Cells are not rotated.
- All three axes use the spacing 1.2, and the group has no offset.
- A click appends to the group and never clears it, so clicks accumulate cells.
- A NaN, zero or negative dimension makes the loops not run; no error is
  raised.

## Model

| member | source | states |
|---|---|---|
| Grid.Stack | src/script.js:102-105 | The innermost loop appends exactly nz cells for a fixed (x, y). |
| Grid.StackAt | src/script.js:102-105 | The c-th cell the z loop appends is the cell for index (x, y, c), placed at (x·1.2, y·1.2, c·1.2). |
| Grid.StackShape | src/script.js:102-105 | The z loop's cells are in strictly increasing index order and are exactly (x, y, 0), (x, y, 1), … |
| Grid.LayerLength | src/script.js:101-107 | The y and z loops together append ny·nz cells for one x. |
| Grid.LayerAt | src/script.js:101-107 | Within one x, the cell for (x, b, c) is appended at offset b·nz + c. |
| Grid.LayerShape | src/script.js:101-107 | One x's cells are strictly increasing in (y, z) order, all have that x, and each lies in the grid at its own position. |
| Grid.PackLength | src/script.js:100-105 | One build appends exactly nx·ny·nz cells. |
| Grid.PackAtDigits | src/script.js:100-108 | The cell for (a, b, c) is appended at offset a·ny·nz + b·nz + c of the build. |
| Grid.PackAt | src/script.js:100-104 | The k-th appended cell has index (k / (ny·nz), (k / nz) % ny, k % nz), placed at that index times 1.2: x-major, then y, then z order. |
| Grid.PackShape | src/script.js:100-104 | A build's cells are in strictly increasing x-major, y, z order; each index is in the grid and each position is its index times 1.2. |
| Grid.PackCoversGrid | src/script.js:100-105 | Every grid index (x, y, z) in the nx × ny × nz grid is among the appended cells. |
| Grid.PackDistinct | src/script.js:104 | Two different cells of one build differ in index and in position: no two new cells coincide. |
| Grid.PackInBox | src/script.js:100-104 | Every new position lies in [0, (nx-1)·1.2] × [0, (ny-1)·1.2] × [0, (nz-1)·1.2]. |
| Grid.FirstCellAtOrigin | src/script.js:96-105 | A build with positive dimensions appends first the cell for (0, 0, 0), at the origin. |
| Grid.PackEmptyIff | src/script.js:100-102 | A build appends nothing exactly when some dimension is zero. |
| Script.Count | src/script.js:100-102 | The number of times `for (i = 0; i < d; i++)` runs: i < d holds for a natural i exactly when i is below the count, and never for NaN. |
| Script.BuildEmptyIff | src/script.js:100-102 | A click appends no cell exactly when some dimension is NaN, zero or negative. |
| Script.CellGroup.constructor | src/script.js:89 | The group starts with no cells. |
| Script.CellGroup.Add | src/script.js:105 | Adding a cell puts it after the group's existing children. |
| Script.CreateBatteryPack | src/script.js:92-112 | After a click the group holds its old cells, unchanged and in front, followed by exactly the cells Pack of the three loop counts lists, in that order. |
| Script.ClickAppends | src/script.js:100-105 | A click grows the group by exactly Count(x)·Count(y)·Count(z) cells, and leaves it as it was when some dimension is NaN, zero or negative. |
| Script.ResetInputs | src/script.js:118-123 | After page load every dimension input holds the text "1". |
| Script.FirstClickWithDefaults | src/script.js:118-122 | With the reset inputs (1, 1, 1), the first click leaves the group with exactly one cell, index (0, 0, 0), at the origin. |
| Script.ClickTwice | src/script.js:115 | Clicking twice with the same inputs on a fresh group doubles the cell count: the second click appends a copy of the first click's cells, keeping those. |

## Left out

- The three.js scene, camera, light, renderer, grid and axes helpers and orbit controls: these are library objects with no logic of their own. `scene.add(cellGroup)` at the end of the handler is one of these calls.
- The cell's mesh, geometry and material. A cell is modelled as its grid index and its position. The shared box geometry and material that every mesh refers to are not modelled.
- Reading the inputs from the page and `parseInt`: the dimensions are parameters of type `Script.Dim`. `parseInt`'s own rules (leading whitespace, signs, trailing text, radix prefixes) are not modelled.
- Unbounded dimensions: a dimension is a mathematical integer, and every click ends. In the page, `parseInt` gives Infinity for a very long digit string, and then `x < xDim` never becomes false, so the handler never returns. A finite dimension above 2^53 also never ends there, because `x++` stops changing `x`. This non-termination is not modelled.
- `Script.FirstClickWithDefaults`: takes the reset text "1" as the number 1, because `parseInt` is not modelled.
- The window-resize handler, the per-frame render loop and its FPS graph: browser event and timing plumbing.
- The Tweakpane panel and the background-colour picker: user interface only.
- The commented-out model and texture loading: dead code.
- Floating point: positions are exact reals, so `x * 1.2` has no IEEE-754 rounding. Distinctness and the box bounds are proved for exact arithmetic.
- `Script.CellGroup.Add`: three.js also detaches an object from a previous parent when it is added. Every cell here is a fresh mesh, so this never applies and is not modelled.
